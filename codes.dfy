/**
 * The two lookup tables of the grades page: the kind of a unit (`art`) and
 * its examination status, each from a short code to its German description.
 */
module Codes {

  const StatusCodes: map<string, string> := map[
    "AN" := "angemeldet",
    "BE" := "bestanden",
    "NB" := "nicht bestanden",
    "EN" := "endgültig nicht bestanden",
    "AB" := "abgemeldet",
    "KR" := "Krankmeldung",
    "GR" := "genehmigter Rücktritt",
    "NGR" := "nicht genehmigter Rücktritt",
    "NE" := "nicht erschienen",
    "RT" := "abgemeldet über QISPOS",
    "ME" := "mündl. Ergänzungsprüfung",
    "VZ" := "Verzicht auf Wiederholung",
    "TA" := "Täuschungsversuch",
    "PV" := "Konto/Modul nicht vollständig",
    "FAE" := "fristgerechte Arbeitsabgabe erfolgt"
  ]

  const ArtCodes: map<string, string> := map[
    "GE" := "Modul",
    "PL" := "Teilmodul",
    "MB" := "Modul Bachelorarbeit",
    "MM" := "Modul Masterarbeit",
    "AA" := "Abschlussarbeit (Bachelor od. Master)"
  ]

  /** `table[code] if code in table else code` */
  function Decode(table: map<string, string>, code: string): string {
    if code in table then table[code] else code
  }

  /**
   * Decoding a kind cell changes it exactly when it is a known kind code:
   * no code in the table is its own description.
   */
  lemma ArtDecodeChangesKnownCodes(code: string)
    ensures Decode(ArtCodes, code) != code <==> code in ArtCodes
    ensures Decode(ArtCodes, code) == code || Decode(ArtCodes, code) in ArtCodes.Values
  {
  }

  /** The same for status cells and the status table. */
  lemma StatusDecodeChangesKnownCodes(code: string)
    ensures Decode(StatusCodes, code) != code <==> code in StatusCodes
    ensures Decode(StatusCodes, code) == code || Decode(StatusCodes, code) in StatusCodes.Values
  {
  }

  /**
   * No description in either table is itself a code, so decoding an
   * already decoded cell changes nothing.
   */
  lemma ArtDecodeIdempotent(code: string)
    ensures Decode(ArtCodes, Decode(ArtCodes, code)) == Decode(ArtCodes, code)
  {
  }

  lemma StatusDecodeIdempotent(code: string)
    ensures Decode(StatusCodes, Decode(StatusCodes, code)) == Decode(StatusCodes, code)
  {
  }

  lemma DecodeExamples()
    ensures Decode(ArtCodes, "GE") == "Modul"
    ensures Decode(StatusCodes, "BE") == "bestanden"
    ensures Decode(StatusCodes, "NGR") == "nicht genehmigter Rücktritt"
    ensures Decode(ArtCodes, "BE") == "BE"
    ensures Decode(StatusCodes, "XY") == "XY"
  {
  }
}
