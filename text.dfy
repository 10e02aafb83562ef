/** The part of JavaScript's string semantics the escrow handlers rely on:
    `String.prototype.trim` and the whitespace set it removes. Mongoose's
    `trim: true` schema option applies the same function. */
module JsText {

  /** WhiteSpace and LineTerminator code points of ECMAScript (the Zs category
      included), which is exactly what `trim` strips from both ends. */
  predicate IsJsWhitespace(c: char) {
    var n := c as int;
    n == 0x09 || n == 0x0A || n == 0x0B || n == 0x0C || n == 0x0D || n == 0x20
    || n == 0xA0 || n == 0x1680 || 0x2000 <= n <= 0x200A
    || n == 0x2028 || n == 0x2029 || n == 0x202F || n == 0x205F
    || n == 0x3000 || n == 0xFEFF
  }

  /** Every character of `s` is whitespace (the empty string included). */
  predicate IsBlank(s: string) {
    forall i | 0 <= i < |s| :: IsJsWhitespace(s[i])
  }

  /** Drops the leading whitespace. */
  function TrimStart(s: string): (r: string)
    ensures |r| <= |s|
    ensures r == [] || !IsJsWhitespace(r[0])
  {
    if s == [] || !IsJsWhitespace(s[0]) then s else TrimStart(s[1..])
  }

  /** Drops the trailing whitespace. */
  function TrimEnd(s: string): (r: string)
    ensures |r| <= |s|
    ensures r == [] || !IsJsWhitespace(r[|r| - 1])
  {
    if s == [] || !IsJsWhitespace(s[|s| - 1]) then s else TrimEnd(s[..|s| - 1])
  }

  /** `s.trim()`: neither end of the result is whitespace, and it is no longer than `s`. */
  function Trim(s: string): (r: string)
    ensures |r| <= |s|
    ensures r == [] || (!IsJsWhitespace(r[0]) && !IsJsWhitespace(r[|r| - 1]))
  {
    TrimEndSplits(TrimStart(s));
    TrimEnd(TrimStart(s))
  }

  /** What `TrimStart` removes is whitespace, and what it keeps is the rest
      of `s`: the suffix that starts at the first non-whitespace character. */
  lemma {:induction false} TrimStartSplits(s: string)
    ensures s == s[..|s| - |TrimStart(s)|] + TrimStart(s)
    ensures IsBlank(s[..|s| - |TrimStart(s)|])
  {
    if s != [] && IsJsWhitespace(s[0]) {
      var tail, r := s[1..], TrimStart(s[1..]);
      TrimStartSplits(tail);
      var k := |s| - |r|;
      assert TrimStart(s) == r;
      assert s[..k] == [s[0]] + tail[..k - 1];
      assert s == [s[0]] + tail;
      assert IsBlank(s[..k]) by {
        forall i | 0 <= i < k ensures IsJsWhitespace(s[..k][i]) {
          if i > 0 {
            assert s[..k][i] == tail[..k - 1][i - 1];
          }
        }
      }
    }
  }

  /** What `TrimEnd` removes is whitespace, and what it keeps is the prefix
      of `s` that ends at the last non-whitespace character. */
  lemma {:induction false} TrimEndSplits(s: string)
    ensures s == TrimEnd(s) + s[|TrimEnd(s)|..]
    ensures IsBlank(s[|TrimEnd(s)|..])
  {
    if s != [] && IsJsWhitespace(s[|s| - 1]) {
      var r := TrimEnd(s[..|s| - 1]);
      TrimEndSplits(s[..|s| - 1]);
      assert s[|r|..] == s[..|s| - 1][|r|..] + [s[|s| - 1]];
    }
  }

  /** `s.trim()` is `s` with a whitespace prefix and a whitespace suffix
      removed; with `Trim`'s own contract (neither end of the result is
      whitespace) these are the longest such prefix and suffix. */
  lemma {:induction false} TrimSplits(s: string)
    ensures var k := |s| - |TrimStart(s)|;
            && k + |Trim(s)| <= |s|
            && s == s[..k] + Trim(s) + s[k + |Trim(s)|..]
            && IsBlank(s[..k])
            && IsBlank(s[k + |Trim(s)|..])
  {
    var t := TrimStart(s);
    var k := |s| - |t|;
    TrimStartSplits(s);
    TrimEndSplits(t);
    var r := Trim(s);
    assert t == s[k..];
    assert s[k + |r|..] == t[|r|..];
    assert s == s[..k] + t;
  }

  /** `s.trim() === ''` holds exactly for the all-whitespace strings: this is
      the blank-reason test of the dispute handler and the reason a blank
      title fails Mongoose's `required` check. */
  lemma {:induction false} TrimIsEmptyIffBlank(s: string)
    ensures Trim(s) == "" <==> IsBlank(s)
  {
    var t := TrimStart(s);
    TrimStartSplits(s);
    TrimEndSplits(t);
    if Trim(s) == "" {
      assert t == [];
    }
  }
}
