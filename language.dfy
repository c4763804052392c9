/**
  The language registry of repolog: the `Language` enum with its file
  extension and its comment symbol. Both tables are total over the enum.
 */
module Language {
  import opened Wrappers

  datatype Language = Rust | Python

  /** The file extension (without the dot) of the language's sources. */
  function Extension(l: Language): (ext: string)
    ensures ext != [] && '.' !in ext && '/' !in ext
  {
    match l
    case Rust => "rs"
    case Python => "py"
  }

  /** The symbol that starts a line comment in the language. */
  function CommentSymbol(l: Language): (sym: string)
    ensures sym != [] && '\n' !in sym
  {
    match l
    case Rust => "//"
    case Python => "#"
  }

  /** The command-line name of a variant, as the derived value-enum parser spells it. */
  function Name(l: Language): string
  {
    match l
    case Rust => "rust"
    case Python => "python"
  }

  /** Parses a command-line language name; any other string is not a language. */
  function Parse(name: string): (l: Option<Language>)
    ensures l.Some? ==> Name(l.value) == name
  {
    if name == "rust" then Some(Rust)
    else if name == "python" then Some(Python)
    else None
  }

  /** Parsing is the inverse of naming. */
  lemma ParseName(l: Language)
    ensures Parse(Name(l)) == Some(l)
  {
  }

  /** Distinct languages have distinct extensions, so a file's extension names at most one language. */
  lemma ExtensionInjective(a: Language, b: Language)
    ensures Extension(a) == Extension(b) ==> a == b
  {
  }

  /** Distinct languages have distinct comment symbols. */
  lemma CommentSymbolInjective(a: Language, b: Language)
    ensures CommentSymbol(a) == CommentSymbol(b) ==> a == b
  {
  }
}
