/**
 The application's configuration constants that the scoring engine and the
 record store depend on.
 */
module Config {

  /** The opportunity statuses offered by the form, in display order. */
  const MeddicStatus: seq<string> :=
    ["En cours", "Qualifié", "Non qualifié", "En attente", "Fermé - Gagné", "Fermé - Perdu"]

  /** Badge colour of each status. */
  const StatusColors: map<string, string> := map[
    "En cours" := "#FFA500",
    "Qualifié" := "#32CD32",
    "Non qualifié" := "#FF6347",
    "En attente" := "#87CEEB",
    "Fermé - Gagné" := "#228B22",
    "Fermé - Perdu" := "#8B0000"
  ]

  /** The six MEDDIC fields counted by the completion score, in MEDDIC order. */
  const RequiredMeddicFields: seq<string> :=
    ["metrics", "economic_buyer", "decision_criteria", "decision_process", "identify_pain", "champion"]

  /** Whether saves and deletes append to the audit log. */
  const AuditTrailEnabled: bool := true

  /** Colour used for any status or priority without a colour of its own. */
  const Grey := "#808080"

  predicate Distinct(xs: seq<string>) {
    forall i, j :: 0 <= i < j < |xs| ==> xs[i] != xs[j]
  }

  /** The completion denominator is six: six field names, no two alike. */
  lemma RequiredFieldsAreSix()
    ensures |RequiredMeddicFields| == 6 && Distinct(RequiredMeddicFields)
  {
  }

  /** Six distinct statuses, "En cours" first (the form's default index 0). */
  lemma StatusesAreSix()
    ensures |MeddicStatus| == 6 && Distinct(MeddicStatus) && MeddicStatus[0] == "En cours"
  {
  }

  /** Exactly the enumerated statuses have a colour, and none of them is the fallback grey. */
  lemma StatusColorsCoverStatuses()
    ensures forall s :: s in StatusColors <==> s in MeddicStatus
    ensures Grey !in StatusColors.Values
  {
  }
}
