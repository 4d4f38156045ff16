/** The badge colour of a programming language (`getLanguageColor`). */
module LanguageColors {

  const DefaultColor := "#6e7681"

  /** The colour table of the page, one entry per language it knows. */
  const Palette: map<string, string> := map[
    "JavaScript" := "#f1e05a",
    "TypeScript" := "#2b7489",
    "Python" := "#3572A5",
    "Java" := "#b07219",
    "C++" := "#f34b7d",
    "C" := "#555555",
    "C#" := "#239120",
    "Ruby" := "#701516",
    "Go" := "#00ADD8",
    "Rust" := "#dea584",
    "PHP" := "#4F5D95",
    "Swift" := "#fa7343",
    "Kotlin" := "#F18E33",
    "HTML" := "#e34c26",
    "CSS" := "#563d7c",
    "Shell" := "#89e051",
    "R" := "#198CE7",
    "MATLAB" := "#e16737",
    "Jupyter Notebook" := "#DA5B0B"
  ]

  predicate IsHexDigit(c: char)
  {
    '0' <= c <= '9' || 'a' <= c <= 'f' || 'A' <= c <= 'F'
  }

  /** A CSS colour of the form `#rrggbb`. */
  predicate IsHexColor(s: string)
  {
    |s| == 7 && s[0] == '#' && forall k :: 1 <= k < 7 ==> IsHexDigit(s[k])
  }

  /**
   * `colors[language] || '#6e7681'`: every table colour is a non-empty string,
   * so the default is taken exactly for the languages the table lacks.
   */
  function LanguageColor(language: string): (color: string)
    ensures IsHexColor(color)
    ensures color == DefaultColor <==> language !in Palette
    ensures language in Palette ==> color == Palette[language]
  {
    if language in Palette then Palette[language] else DefaultColor
  }

  /** The colours of the languages of this page's own repositories. */
  lemma KnownColors()
    ensures LanguageColor("Python") == "#3572A5"
    ensures LanguageColor("Jupyter Notebook") == "#DA5B0B"
    ensures LanguageColor("JavaScript") == "#f1e05a"
    ensures LanguageColor("Fortran") == DefaultColor && LanguageColor("") == DefaultColor
  {
  }
}
