/** Long names of the subtitle languages, looked up by their two-letter abbreviation. */
module Languages {

  /** The language assumed for a subtitle file that names none. */
  const ASSUMED_LANGUAGE: string := "English"

  /** The abbreviations the table lists. */
  const KnownAbbreviations: set<string> :=
    {"ar", "bn", "de", "en", "es", "fr", "hi", "id", "ja", "pt", "ru", "ur", "zh"}

  /** `language_abbrevation_to_name`: a total lookup, with "Other" for anything unlisted. */
  function AbbreviationToName(abbreviation: string): (name: string)
    ensures name != []
    ensures abbreviation == "" ==> name == ASSUMED_LANGUAGE
    ensures name == "Other" <==> abbreviation != "" && abbreviation !in KnownAbbreviations
  {
    match abbreviation
    case "" => ASSUMED_LANGUAGE
    case "ar" => "Arabic"
    case "bn" => "Bengali"
    case "de" => "German"
    case "en" => "English"
    case "es" => "Spanish"
    case "fr" => "French"
    case "hi" => "Hindi"
    case "id" => "Indonesian"
    case "ja" => "Japanese"
    case "pt" => "Portuguese"
    case "ru" => "Russian"
    case "ur" => "Urdu"
    case "zh" => "Chinese"
    case _ => "Other"
  }

  /** Distinct listed abbreviations give distinct names (the empty abbreviation, not listed, shares "English" with "en"). */
  lemma KnownNamesDistinct(a: string, b: string)
    requires a in KnownAbbreviations && b in KnownAbbreviations
    ensures AbbreviationToName(a) == AbbreviationToName(b) ==> a == b
  {
  }

  /** No language name holds an apostrophe, so it can stand in a quoted HTML attribute as it is. */
  lemma NamesHaveNoApostrophe(abbreviation: string)
    ensures '\'' !in AbbreviationToName(abbreviation)
  {
  }
}
