/** Character classes and the string clean-up the word game applies to the
    phrase the host types in: JavaScript's whitespace class, `trim`, and the
    ASCII part of the phrase normalisation (upper-case, replace everything that
    is neither `A`-`Z` nor whitespace by a space, trim). */
module Text {

  /** The characters JavaScript's `\s` and `String.prototype.trim` treat as
      whitespace: TAB, LF, VT, FF, CR, SPACE, NBSP, OGHAM SPACE MARK,
      U+2000..U+200A, LINE/PARAGRAPH SEPARATOR, NNBSP, MMSP, IDEOGRAPHIC SPACE
      and the byte-order mark. */
  predicate IsWhitespace(c: char) {
    var n := c as int;
    || 9 <= n <= 13
    || n == 32
    || n == 0xA0
    || n == 0x1680
    || 0x2000 <= n <= 0x200A
    || n == 0x2028 || n == 0x2029
    || n == 0x202F || n == 0x205F
    || n == 0x3000 || n == 0xFEFF
  }

  predicate IsUpperAscii(c: char) {
    'A' <= c <= 'Z'
  }

  predicate IsLowerAscii(c: char) {
    'a' <= c <= 'z'
  }

  /** `toUpperCase` restricted to ASCII: lower-case letters move to upper
      case, every other character is left alone. */
  function ToUpperAscii(c: char): (u: char)
    ensures IsLowerAscii(c) ==> IsUpperAscii(u) && u as int + 32 == c as int
    ensures !IsLowerAscii(c) ==> u == c
  {
    if IsLowerAscii(c) then (c as int - 32) as char else c
  }

  /** The first position at or after `i` that is not whitespace, or the
      length when there is none. */
  function SkipFrom(s: string, i: nat): (a: nat)
    requires i <= |s|
    ensures i <= a <= |s|
    ensures forall k :: i <= k < a ==> IsWhitespace(s[k])
    ensures a == |s| || !IsWhitespace(s[a])
    decreases |s| - i
  {
    if i < |s| && IsWhitespace(s[i]) then SkipFrom(s, i + 1) else i
  }

  /** Where `trim` starts keeping characters. */
  function Lead(s: string): (a: nat)
    ensures a <= |s|
    ensures forall k :: 0 <= k < a ==> IsWhitespace(s[k])
    ensures a == |s| || !IsWhitespace(s[a])
  {
    SkipFrom(s, 0)
  }

  /** The end of the kept part: moving down from `j` towards `a`, the first
      point whose preceding character is not whitespace. */
  function BackFrom(s: string, a: nat, j: nat): (b: nat)
    requires a <= j <= |s|
    ensures a <= b <= j
    ensures forall k :: b <= k < j ==> IsWhitespace(s[k])
    ensures b == a || !IsWhitespace(s[b - 1])
    decreases j
  {
    if j > a && IsWhitespace(s[j - 1]) then BackFrom(s, a, j - 1) else j
  }

  /** Where `trim` stops keeping characters. */
  function Tail(s: string): (b: nat)
    ensures Lead(s) <= b <= |s|
    ensures forall k :: b <= k < |s| ==> IsWhitespace(s[k])
    ensures b == Lead(s) || !IsWhitespace(s[b - 1])
  {
    BackFrom(s, Lead(s), |s|)
  }

  /** JavaScript's `trim`: the slice of `s` that starts after its leading
      whitespace, neither starts nor ends with whitespace, and leaves only
      whitespace behind on either side. */
  function Trim(s: string): (r: string)
    ensures Lead(s) + |r| <= |s| && r == s[Lead(s)..Lead(s) + |r|]
    ensures r == [] || (!IsWhitespace(r[0]) && !IsWhitespace(r[|r| - 1]))
    ensures forall i :: 0 <= i < Lead(s) ==> IsWhitespace(s[i])
    ensures forall i :: Lead(s) + |r| <= i < |s| ==> IsWhitespace(s[i])
  {
    s[Lead(s)..Tail(s)]
  }

  /** Trimming twice is trimming once. */
  lemma TrimIdempotent(s: string)
    ensures Trim(Trim(s)) == Trim(s)
  {
    var r := Trim(s);
    assert Lead(r) == 0;
    assert Tail(r) == |r|;
  }

  /** A character a normalised phrase may contain. */
  predicate IsPhraseChar(c: char) {
    IsUpperAscii(c) || IsWhitespace(c)
  }

  /** What the normalisation makes of one character: its ASCII upper case
      when that is a letter `A`-`Z` or whitespace, a space otherwise. */
  function NormalizeChar(c: char): (d: char)
    ensures IsPhraseChar(d)
    ensures IsPhraseChar(c) ==> d == c
    ensures IsLowerAscii(c) ==> IsUpperAscii(d) && d as int + 32 == c as int
    ensures !IsUpperAscii(c) && !IsLowerAscii(c) && !IsWhitespace(c) ==> d == ' '
  {
    var u := ToUpperAscii(c);
    if IsPhraseChar(u) then u else ' '
  }

  /** Upper-casing followed by the replacement of every character outside
      `A`-`Z` and whitespace, position by position. */
  function NormalizeChars(s: string): (r: string)
    ensures |r| == |s|
    ensures forall i :: 0 <= i < |s| ==> r[i] == NormalizeChar(s[i])
    ensures forall i :: 0 <= i < |r| ==> IsPhraseChar(r[i])
  {
    seq(|s|, i requires 0 <= i < |s| => NormalizeChar(s[i]))
  }

  /** A slice of a phrase-character string holds only phrase characters. */
  lemma PhraseCharsSlice(m: string, a: nat, b: nat)
    requires a <= b <= |m|
    requires forall i :: 0 <= i < |m| ==> IsPhraseChar(m[i])
    ensures forall i :: 0 <= i < |m[a..b]| ==> IsPhraseChar(m[a..b][i])
  {
  }

  /** The normalised phrase: only `A`-`Z` and whitespace, no whitespace at
      either end, and the slice of the character-wise normalised input that
      leaves only whitespace behind it. */
  function Normalize(raw: string): (r: string)
    ensures forall i :: 0 <= i < |r| ==> IsPhraseChar(r[i])
    ensures r == [] || (!IsWhitespace(r[0]) && !IsWhitespace(r[|r| - 1]))
    ensures Lead(NormalizeChars(raw)) + |r| <= |raw|
    ensures r == NormalizeChars(raw)[Lead(NormalizeChars(raw))..Lead(NormalizeChars(raw)) + |r|]
    ensures forall i :: Lead(NormalizeChars(raw)) + |r| <= i < |raw| ==> IsWhitespace(NormalizeChars(raw)[i])
  {
    var m := NormalizeChars(raw);
    var r := Trim(m);
    assert |m| == |raw|;
    PhraseCharsSlice(m, Lead(m), Tail(m));
    r
  }

  /** Normalising an already normalised phrase changes nothing. */
  lemma NormalizeIdempotent(raw: string)
    ensures Normalize(Normalize(raw)) == Normalize(raw)
  {
    var n := Normalize(raw);
    assert NormalizeChars(n) == n;
    TrimIdempotent(NormalizeChars(raw));
  }
}
