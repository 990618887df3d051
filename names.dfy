/** Validation of a category name (book_app/models.py:10-15 and 54-64):
    `validate_no_special_chars`, and the validators of the `name` field run
    by the field's clean step. */
module CategoryNames {
  import opened Wrappers

  /** The characters the character class of `validate_no_special_chars` matches. */
  const SpecialChars: set<char> :=
    {'!', '@', '#', '$', '%', '^', '&', '*', '(', ')', '_', '+', '=',
     '[', ']', '{', '}', '|', '\\', ';', ':', '"', '<', '>', '?'}

  predicate IsSpecialChar(c: char)
  {
    c in SpecialChars
  }

  /** Python's `\s` on a `str` pattern: the characters `str.isspace` accepts. */
  predicate IsPythonSpace(c: char)
  {
    || '\t' <= c <= '\r'
    || '\U{1C}' <= c <= ' '
    || c == '\U{85}' || c == '\U{A0}' || c == '\U{1680}'
    || '\U{2000}' <= c <= '\U{200A}'
    || c == '\U{2028}' || c == '\U{2029}' || c == '\U{202F}' || c == '\U{205F}' || c == '\U{3000}'
  }

  /** A character of the class `[A-Za-z0-9\s\-]`. */
  predicate IsNameChar(c: char)
  {
    'A' <= c <= 'Z' || 'a' <= c <= 'z' || '0' <= c <= '9' || c == '-' || IsPythonSpace(c)
  }

  /** `re.search` with the special-character class: the leftmost match, if any. */
  function SearchSpecialChar(value: string): (r: Option<nat>)
    ensures r.Some? ==> r.value < |value| && IsSpecialChar(value[r.value])
    ensures r.Some? ==> forall j :: 0 <= j < r.value ==> !IsSpecialChar(value[j])
    ensures r.None? ==> forall j :: 0 <= j < |value| ==> !IsSpecialChar(value[j])
  {
    if |value| == 0 then None
    else if IsSpecialChar(value[0]) then Some(0)
    else match SearchSpecialChar(value[1..])
      case None => None
      case Some(k) => Some(k + 1)
  }

  datatype NameError = Blank | TooShort | DisallowedCharacters | SpecialCharacters | TooLong

  /** `validate_no_special_chars`: raises exactly when some character is special. */
  function ValidateNoSpecialChars(value: string): (r: Outcome<NameError>)
    ensures r == Fail(SpecialCharacters) <==> exists i :: 0 <= i < |value| && IsSpecialChar(value[i])
    ensures r.Pass? || r == Fail(SpecialCharacters)
  {
    if SearchSpecialChar(value).Some? then Fail(SpecialCharacters) else Pass
  }

  /** `RegexValidator(r'^[A-Za-z0-9\s\-]+$')`: a non-empty run of name characters.
      (`$` may also match before a final newline, which the class contains anyway.) */
  predicate MatchesNamePattern(value: string)
  {
    |value| > 0 && forall i :: 0 <= i < |value| ==> IsNameChar(value[i])
  }

  /** The errors the `name` field reports, in the order its validators run:
      a blank value stops at the required-field check; otherwise
      MinLengthValidator(2), the RegexValidator, validate_no_special_chars
      and the MaxLengthValidator(100) that max_length adds all run. */
  function ValidateName(name: string): (errors: seq<NameError>)
    ensures errors == [] <==> 2 <= |name| <= 100 && MatchesNamePattern(name)
    ensures name == "" ==> errors == [Blank]
    ensures Blank in errors <==> name == ""
  {
    assert MatchesNamePattern(name) ==> ValidateNoSpecialChars(name) == Pass by {
      if MatchesNamePattern(name) {
        WhitelistExcludesSpecials(name);
      }
    }
    if name == "" then [Blank]
    else
      (if |name| < 2 then [TooShort] else [])
      + (if MatchesNamePattern(name) then [] else [DisallowedCharacters])
      + (match ValidateNoSpecialChars(name) case Pass => [] case Fail(e) => [e])
      + (if |name| > 100 then [TooLong] else [])
  }

  /** No name character is special: a value the whitelist accepts always
      passes `validate_no_special_chars`, so that validator never adds an
      error the regular expression has not already reported. */
  lemma WhitelistExcludesSpecials(value: string)
    requires MatchesNamePattern(value)
    ensures ValidateNoSpecialChars(value) == Pass
  {
    forall i | 0 <= i < |value| ensures !IsSpecialChar(value[i]) {
      NameCharNotSpecial(value[i]);
    }
  }

  /** The whitelist and the blacklist share no character. */
  lemma NameCharNotSpecial(c: char)
    requires IsNameChar(c)
    ensures !IsSpecialChar(c)
  {
  }

  /** A valid category name holds no `>`, the character of the path separator. */
  lemma ValidNameHasNoSeparator(name: string)
    requires ValidateName(name) == []
    ensures forall i :: 0 <= i < |name| ==> name[i] != '>'
  {
  }
}
