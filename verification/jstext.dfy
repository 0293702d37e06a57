/** JavaScript strings as the contact scripts see them: sequences of UTF-16
    code units. `String.prototype.length`, `trim` and regular expressions
    without the `u` flag all count and match code units, so the validator is
    stated over these rather than over Unicode scalar values. */
module JsText {

  /** One UTF-16 code unit. */
  type CodeUnit = c: int | 0 <= c < 0x1_0000

  type JsString = seq<CodeUnit>

  /** The code units that `trim` strips and that the regex class `\s` matches:
      ECMAScript's WhiteSpace and LineTerminator productions. */
  predicate IsWhitespace(c: CodeUnit) {
    || c == 0x09 || c == 0x0A || c == 0x0B || c == 0x0C || c == 0x0D
    || c == 0x20 || c == 0xA0 || c == 0x1680
    || (0x2000 <= c <= 0x200A)
    || c == 0x2028 || c == 0x2029 || c == 0x202F || c == 0x205F
    || c == 0x3000 || c == 0xFEFF
  }

  predicate AllWhitespace(s: JsString) {
    forall i :: 0 <= i < |s| ==> IsWhitespace(s[i])
  }

  /** Drops the leading whitespace: the result is a suffix of `s` that does not
      start with whitespace, and everything dropped was whitespace. */
  function TrimStart(s: JsString): (r: JsString)
    ensures |r| <= |s| && r == s[|s| - |r|..]
    ensures AllWhitespace(s[..|s| - |r|])
    ensures |r| > 0 ==> !IsWhitespace(r[0])
  {
    if |s| > 0 && IsWhitespace(s[0]) then TrimStart(s[1..]) else s
  }

  /** Drops the trailing whitespace: the result is a prefix of `s` that does
      not end with whitespace, and everything dropped was whitespace. */
  function TrimEnd(s: JsString): (r: JsString)
    ensures |r| <= |s| && r == s[..|r|]
    ensures AllWhitespace(s[|r|..])
    ensures |r| > 0 ==> !IsWhitespace(r[|r| - 1])
  {
    if |s| > 0 && IsWhitespace(s[|s| - 1]) then TrimEnd(s[..|s| - 1]) else s
  }

  /** `b` is `s` with the whitespace around it removed: `b` is the slice
      `s[lo..lo + |b|]`, everything outside it is whitespace, and `b` neither
      starts nor ends with whitespace. */
  ghost predicate IsTrimmedSlice(s: JsString, lo: nat, b: JsString) {
    && lo + |b| <= |s|
    && b == s[lo..lo + |b|]
    && AllWhitespace(s[..lo])
    && AllWhitespace(s[lo + |b|..])
    && (|b| > 0 ==> !IsWhitespace(b[0]) && !IsWhitespace(b[|b| - 1]))
  }

  /** `String.prototype.trim`: the leading, then the trailing whitespace
      removed. */
  function Trim(s: JsString): (r: JsString)
    ensures |r| <= |s|
    ensures |r| > 0 ==> !IsWhitespace(r[0]) && !IsWhitespace(r[|r| - 1])
  {
    TrimEnd(TrimStart(s))
  }

  /** What trimming leaves: the slice of `s` between its first and last
      non-whitespace code units, starting where `TrimStart` stopped. */
  lemma TrimIsTrimmedSlice(s: JsString)
    ensures IsTrimmedSlice(s, |s| - |TrimStart(s)|, Trim(s))
  {
    var t := TrimStart(s);
    TrimmedPrefixOfSuffix(s, |s| - |t|, t, TrimEnd(t));
  }

  /** A trimmed prefix of a trimmed suffix is a trimmed slice. */
  lemma TrimmedPrefixOfSuffix(s: JsString, k: nat, t: JsString, r: JsString)
    requires k <= |s| && t == s[k..] && AllWhitespace(s[..k])
    requires |r| <= |t| && r == t[..|r|] && AllWhitespace(t[|r|..])
    requires |t| > 0 ==> !IsWhitespace(t[0])
    requires |r| > 0 ==> !IsWhitespace(r[|r| - 1])
    ensures IsTrimmedSlice(s, k, r)
  {
    assert t[|r|..] == s[k + |r|..];
    if |r| > 0 {
      assert r[0] == t[0];
    }
  }

  /** A text that neither starts nor ends with whitespace is its own trim. */
  lemma TrimOfUnpadded(s: JsString)
    requires |s| > 0 && !IsWhitespace(s[0]) && !IsWhitespace(s[|s| - 1])
    ensures Trim(s) == s
  {
    assert TrimStart(s) == s;
  }

  /** The trimmed text is empty exactly when the input is whitespace only. */
  lemma TrimEmptyIff(s: JsString)
    ensures |Trim(s)| == 0 <==> AllWhitespace(s)
  {
    var lo := |s| - |TrimStart(s)|;
    TrimIsTrimmedSlice(s);
    if |Trim(s)| == 0 {
      assert s == s[..lo] + s[lo..];
    } else {
      assert !IsWhitespace(s[lo]);
    }
  }

  /** Trimming is determined by its specification: any non-empty slice of `s`
      that has only whitespace around it and none at its ends is `Trim(s)`. */
  lemma TrimUnique(s: JsString, lo: nat, b: JsString)
    requires IsTrimmedSlice(s, lo, b)
    requires |b| > 0
    ensures b == Trim(s)
  {
    TrimIsTrimmedSlice(s);
    TrimEmptyIff(s);
    assert s[lo] == b[0];
    TrimmedSlicesAgree(s, lo, b, |s| - |TrimStart(s)|, Trim(s));
  }

  /** Two non-empty trimmed slices of the same text are the same slice. */
  lemma TrimmedSlicesAgree(s: JsString, lo: nat, b: JsString, lo': nat, r: JsString)
    requires IsTrimmedSlice(s, lo, b) && |b| > 0
    requires IsTrimmedSlice(s, lo', r) && |r| > 0
    ensures b == r
  {
    assert s[lo] == b[0] && s[lo'] == r[0];
    FirstNonWhitespaceUnique(s, lo, lo');
    assert s[lo + |b| - 1] == b[|b| - 1];
    assert s[lo' + |r| - 1] == r[|r| - 1];
    LastNonWhitespaceUnique(s, lo + |b|, lo' + |r|);
  }

  lemma FirstNonWhitespaceUnique(s: JsString, a: nat, c: nat)
    requires a < |s| && AllWhitespace(s[..a]) && !IsWhitespace(s[a])
    requires c < |s| && AllWhitespace(s[..c]) && !IsWhitespace(s[c])
    ensures a == c
  {
  }

  lemma LastNonWhitespaceUnique(s: JsString, a: nat, c: nat)
    requires 0 < a <= |s| && AllWhitespace(s[a..]) && !IsWhitespace(s[a - 1])
    requires 0 < c <= |s| && AllWhitespace(s[c..]) && !IsWhitespace(s[c - 1])
    ensures a == c
  {
  }

  /** Trimming twice is trimming once. */
  lemma TrimIdempotent(s: JsString)
    ensures Trim(Trim(s)) == Trim(s)
  {
    var r := Trim(s);
    TrimIsTrimmedSlice(s);
    if |r| > 0 {
      assert s[..0] == [] && r[|r|..] == [];
      TrimUnique(r, 0, r);
    } else {
      TrimEmptyIff(r);
      TrimEmptyIff(Trim(r));
    }
  }
}
