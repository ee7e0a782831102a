/**
 * The descriptor table of the anatomy viewer: a bone label is mapped to the
 * text shown in the information panel. Only the labels listed in the table
 * have a text; every other label gets the empty description. The texts here
 * are short summaries: only whether a label has a (non-empty) text matters
 * to the behaviour of the viewer.
 */
module Descriptions {

  /** The labels that have an entry in the descriptor table. */
  const DescribedLabels: set<string> := {
    "Skull", "Mandible", "Atlas", "Axis", "Canine", "Cervical Vertebrae",
    "Scapula", "Humerus", "Radius", "Ulna", "Carpus", "Metacarpus",
    "Phalanges", "Thoracic Vertebrae", "Costal Cartilage", "Lumbar Vertebrae",
    "Pelvis", "Femur", "Tibia", "Fibula", "Tarsus", "Calcaneum",
    "Metatarsus", "Sacrum", "Caudal Vertebrae"
  }

  /** Text shown in the panel when the clicked bone has no description. */
  const NoDescription: string := "No description provided."

  /** The descriptor table, label to description text. */
  const Table: map<string, string> := map[
    "Skull" := "Fused bones of the head, joined to the spine at the atlas.",
    "Mandible" := "The lower jaw, carrying the lower teeth.",
    "Atlas" := "First cervical vertebra (C1), a bony ring without a body.",
    "Axis" := "Second cervical vertebra (C2), the pivot for head rotation.",
    "Canine" := "The four large fang-like teeth.",
    "Cervical Vertebrae" := "The seven vertebrae of the neck (C1 to C7).",
    "Scapula" := "The shoulder blade.",
    "Humerus" := "The single bone of the upper foreleg.",
    "Radius" := "The main load-bearing bone of the lower foreleg.",
    "Ulna" := "The caudolateral bone of the forearm.",
    "Carpus" := "The small bones of the wrist.",
    "Metacarpus" := "The bones between the wrist and the front digits.",
    "Phalanges" := "The bones of the toes.",
    "Thoracic Vertebrae" := "The vertebrae of the mid-back, supporting the ribs.",
    "Costal Cartilage" := "The cartilaginous ventral part of a rib.",
    "Lumbar Vertebrae" := "The vertebrae of the lower back.",
    "Pelvis" := "The bony base joining the spine to the hind limbs.",
    "Femur" := "The thigh bone, between hip and stifle.",
    "Tibia" := "The weight-bearing bone of the lower hind leg.",
    "Fibula" := "The thin lateral bone of the lower hind leg.",
    "Tarsus" := "The bones of the ankle.",
    "Calcaneum" := "The heel bone.",
    "Metatarsus" := "The bones between the ankle and the hind digits.",
    "Sacrum" := "The fused sacral vertebrae.",
    "Caudal Vertebrae" := "The vertebrae of the tail."]

  /** The description of a label; the empty string when the table has none. */
  function Describe(name: string): (r: string)
    ensures name in Table ==> r == Table[name]
    ensures name !in Table ==> r == ""
  {
    if name in Table then Table[name] else ""
  }

  /** A label has a (non-empty) description exactly when it is one of the listed labels. */
  lemma DescribedExactlyListed(name: string)
    ensures Describe(name) != "" <==> name in DescribedLabels
  {
  }

  /**
   * The text the information panel shows for a clicked mesh: its own
   * description, or the fixed fallback when that is empty.
   */
  function PanelText(description: string): (t: string)
    ensures t != ""
    ensures description != "" ==> t == description
    ensures description == "" ==> t == NoDescription
  {
    if description == "" then NoDescription else description
  }

  /** Labels that are loaded but absent from the table get the fallback text. */
  lemma UnlistedLabelsShowFallback(name: string)
    requires name in {"Patella", "Molar", "Teeth", "Unnamed"}
    ensures Describe(name) == ""
    ensures PanelText(Describe(name)) == NoDescription
  {
  }

  /** Every listed label is shown with its own text, never the fallback. */
  lemma ListedLabelsShowOwnText(name: string)
    requires name in DescribedLabels
    ensures PanelText(Describe(name)) == Describe(name)
    ensures PanelText(Describe(name)) != NoDescription
  {
    DescribedExactlyListed(name);
  }
}
