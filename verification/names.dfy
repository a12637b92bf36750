/** Column-name normalisation of the auto-cleaner:
    `name.strip().lower().replace(" ", "_")`. */
module ColumnNames {

  /** Python's `str.isspace()` on one character: the characters `strip()` removes
      (the space, tab to carriage return, the four information separators, next line,
      no-break space and the Unicode space separators). */
  predicate IsSpace(c: char) {
    if c <= ' ' then c == ' ' || ('\t' <= c <= '\r') || ('\U{1C}' <= c)
    else if c < '\U{85}' then false
    else
      || c == '\U{85}' || c == '\U{A0}' || c == '\U{1680}'
      || ('\U{2000}' <= c <= '\U{200A}')
      || c == '\U{2028}' || c == '\U{2029}' || c == '\U{202F}' || c == '\U{205F}'
      || c == '\U{3000}'
  }

  predicate IsUpper(c: char) {
    'A' <= c <= 'Z'
  }

  /** `s` with its leading whitespace removed. */
  function TrimStart(s: string): (r: string)
    ensures |r| <= |s| && r == s[|s| - |r|..]
    ensures |r| == 0 || !IsSpace(r[0])
  {
    if |s| > 0 && IsSpace(s[0]) then TrimStart(s[1..]) else s
  }

  /** `s` with its trailing whitespace removed. */
  function TrimEnd(s: string): (r: string)
    ensures |r| <= |s| && r == s[..|r|]
    ensures |r| == 0 || !IsSpace(r[|r| - 1])
  {
    if |s| > 0 && IsSpace(s[|s| - 1]) then TrimEnd(s[..|s| - 1]) else s
  }

  /** What `TrimStart` removes is whitespace. */
  lemma {:induction false} TrimStartRemovesSpaces(s: string)
    ensures forall i :: 0 <= i < |s| - |TrimStart(s)| ==> IsSpace(s[i])
  {
    if |s| > 0 && IsSpace(s[0]) {
      TrimStartRemovesSpaces(s[1..]);
      forall i | 1 <= i < |s| - |TrimStart(s)| ensures IsSpace(s[i]) {
        assert s[1..][i - 1] == s[i];
      }
    }
  }

  /** What `TrimEnd` removes is whitespace. */
  lemma {:induction false} TrimEndRemovesSpaces(s: string)
    ensures forall i :: |TrimEnd(s)| <= i < |s| ==> IsSpace(s[i])
  {
    if |s| > 0 && IsSpace(s[|s| - 1]) {
      TrimEndRemovesSpaces(s[..|s| - 1]);
      forall i | |TrimEnd(s)| <= i < |s| - 1 ensures IsSpace(s[i]) {
        assert s[..|s| - 1][i] == s[i];
      }
    }
  }

  /** Python's `str.strip()`: `s` without its leading and trailing whitespace. */
  function Strip(s: string): (r: string)
    ensures |r| <= |s|
    ensures |r| == 0 || (!IsSpace(r[0]) && !IsSpace(r[|r| - 1]))
  {
    TrimEnd(TrimStart(s))
  }

  /** Lower-casing of one character (ASCII letters; other characters are kept). */
  function LowerChar(c: char): (d: char)
    ensures IsUpper(c) ==> 'a' <= d <= 'z' && d as int == c as int + 32
    ensures !IsUpper(c) ==> d == c
  {
    if IsUpper(c) then (c as int + 32) as char else c
  }

  /** A lower-case letter is neither upper-case nor whitespace. */
  lemma LowerLetterIsPlain(d: char)
    requires 'a' <= d <= 'z'
    ensures !IsUpper(d) && !IsSpace(d) && d != ' '
  {
  }

  /** Python's `str.lower()`, restricted to ASCII letters. */
  function Lower(s: string): (r: string)
    ensures |r| == |s|
    ensures forall i :: 0 <= i < |s| ==> r[i] == LowerChar(s[i])
  {
    seq(|s|, i requires 0 <= i < |s| => LowerChar(s[i]))
  }

  /** Python's `str.replace(" ", "_")`. */
  function ReplaceSpaces(s: string): (r: string)
    ensures |r| == |s|
    ensures forall i :: 0 <= i < |s| && s[i] == ' ' ==> r[i] == '_'
    ensures forall i :: 0 <= i < |s| && s[i] != ' ' ==> r[i] == s[i]
  {
    seq(|s|, i requires 0 <= i < |s| => if s[i] == ' ' then '_' else s[i])
  }

  /** `lower()` leaves no upper-case letter, so lower-casing again changes nothing. */
  lemma LowerLeavesNoUpper(s: string)
    ensures forall i :: 0 <= i < |s| ==> !IsUpper(Lower(s)[i])
    ensures Lower(Lower(s)) == Lower(s)
  {
  }

  /** `replace(" ", "_")` leaves no space, so replacing again changes nothing. */
  lemma ReplaceSpacesLeavesNoSpace(s: string)
    ensures ' ' !in ReplaceSpaces(s)
    ensures ReplaceSpaces(ReplaceSpaces(s)) == ReplaceSpaces(s)
  {
  }

  /** The normal form the auto-cleaner renames columns into: no surrounding
      whitespace, no upper-case letter and no space. */
  predicate IsSnakeCase(s: string) {
    && (|s| == 0 || (!IsSpace(s[0]) && !IsSpace(s[|s| - 1])))
    && (forall i :: 0 <= i < |s| ==> s[i] != ' ' && !IsUpper(s[i]))
  }

  /** `col.strip().lower().replace(" ", "_")`. */
  function SnakeCase(name: string): (r: string)
    ensures |r| <= |name|
  {
    ReplaceSpaces(Lower(Strip(name)))
  }

  /** Lower-casing and replacing spaces keep a character that is not whitespace
      out of whitespace, and leave no upper-case letter and no space. */
  lemma NormalChar(s: string, i: nat)
    requires i < |s|
    ensures ReplaceSpaces(Lower(s))[i] != ' ' && !IsUpper(ReplaceSpaces(Lower(s))[i])
    ensures !IsSpace(s[i]) ==> !IsSpace(ReplaceSpaces(Lower(s))[i])
  {
    var c := s[i];
    var d := Lower(s)[i];
    if IsUpper(c) {
      LowerLetterIsPlain(d);
    }
  }

  /** The renamed name has no space and no upper-case letter. */
  lemma SnakeCaseCharacters(name: string)
    ensures forall i :: 0 <= i < |SnakeCase(name)| ==>
              SnakeCase(name)[i] != ' ' && !IsUpper(SnakeCase(name)[i])
  {
    var a := Strip(name);
    forall i | 0 <= i < |a| {
      NormalChar(a, i);
    }
  }

  /** The renamed name neither starts nor ends with whitespace. */
  lemma SnakeCaseEnds(name: string)
    ensures |SnakeCase(name)| == 0 ||
            (!IsSpace(SnakeCase(name)[0]) && !IsSpace(SnakeCase(name)[|SnakeCase(name)| - 1]))
  {
    var a := Strip(name);
    if |a| > 0 {
      NormalChar(a, 0);
      NormalChar(a, |a| - 1);
    }
  }

  /** The renamed name is in normal form. */
  lemma SnakeCaseIsSnakeCase(name: string)
    ensures IsSnakeCase(SnakeCase(name))
  {
    SnakeCaseCharacters(name);
    SnakeCaseEnds(name);
  }

  /** A name in normal form is left unchanged. */
  lemma SnakeCaseKeepsNormalName(name: string)
    requires IsSnakeCase(name)
    ensures SnakeCase(name) == name
  {
    assert TrimStart(name) == name;
    assert Strip(name) == name;
    var b := Lower(name);
    forall i | 0 <= i < |name| ensures b[i] == name[i] {
      assert !IsUpper(name[i]);
    }
    assert b == name;
    var r := ReplaceSpaces(b);
    forall i | 0 <= i < |name| ensures r[i] == name[i] {
      assert name[i] != ' ';
    }
    assert r == name;
  }

  /** A name is left unchanged exactly when it is already in normal form. */
  lemma SnakeCaseFixedPoint(name: string)
    ensures SnakeCase(name) == name <==> IsSnakeCase(name)
  {
    SnakeCaseIsSnakeCase(name);
    if IsSnakeCase(name) {
      SnakeCaseKeepsNormalName(name);
    }
  }

  /** Renaming a second time changes nothing. */
  lemma SnakeCaseIdempotent(name: string)
    ensures SnakeCase(SnakeCase(name)) == SnakeCase(name)
  {
    SnakeCaseIsSnakeCase(name);
    SnakeCaseKeepsNormalName(SnakeCase(name));
  }
}
