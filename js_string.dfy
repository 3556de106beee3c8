/**
 * The two pieces of JavaScript string semantics helpers.ts relies on: `String.prototype.trim`
 * (section 22.1.3.32 of ECMA-262) and array destructuring of a string, which walks the string
 * code point by code point. A Dafny `char` is one Unicode scalar value, so a `string` here is
 * the sequence of code points of the JavaScript string.
 */
module JsString {
  import opened Wrappers

  /** The code points `trim` removes: ECMAScript WhiteSpace (tab, VT, FF, space, NBSP, BOM and
      the Zs category) and LineTerminator (LF, CR, LS, PS). */
  predicate IsTrimmable(c: char)
    ensures IsTrimmable(c) ==> !IsHexDigit(c)
  {
    var n := c as int;
    n == 0x09 || n == 0x0A || n == 0x0B || n == 0x0C || n == 0x0D || n == 0x20 ||
    n == 0xA0 || n == 0x1680 || (0x2000 <= n <= 0x200A) || n == 0x2028 || n == 0x2029 ||
    n == 0x202F || n == 0x205F || n == 0x3000 || n == 0xFEFF
  }

  /** A digit of `Buffer.toString("hex")`, which writes lower-case digits only. */
  predicate IsHexDigit(c: char)
  {
    '0' <= c <= '9' || 'a' <= c <= 'f'
  }

  /** Neither the first nor the last code point of `s` is trimmable. */
  predicate HasNoEdgeSpace(s: string)
  {
    s == [] || (!IsTrimmable(s[0]) && !IsTrimmable(s[|s| - 1]))
  }

  /** `s` without its leading trimmable code points. */
  function TrimStart(s: string): string
  {
    if s != [] && IsTrimmable(s[0]) then TrimStart(s[1..]) else s
  }

  /** `s` without its trailing trimmable code points. */
  function TrimEnd(s: string): string
  {
    if s != [] && IsTrimmable(s[|s| - 1]) then TrimEnd(s[..|s| - 1]) else s
  }

  /** `s.trim()`: both ends stripped. The result has no edge space, and a string without edge
      space is left as it is; TrimStripsEdges shows that only edge space is removed. */
  function Trim(s: string): (r: string)
    ensures HasNoEdgeSpace(r)
    ensures HasNoEdgeSpace(s) ==> r == s
  {
    var t := TrimStart(s);
    TrimStartSpec(s);
    TrimEndSpec(t);
    assert TrimEnd(t) != [] ==> TrimEnd(t)[0] == t[0];
    assert HasNoEdgeSpace(s) ==> t == s && TrimEnd(s) == s;
    TrimEnd(t)
  }

  /** TrimStart yields a suffix of `s` that does not start with a trimmable code point, and
      everything it drops is trimmable. */
  lemma {:induction false} TrimStartSpec(s: string)
    ensures |TrimStart(s)| <= |s| && TrimStart(s) == s[|s| - |TrimStart(s)|..]
    ensures forall k :: 0 <= k < |s| - |TrimStart(s)| ==> IsTrimmable(s[k])
    ensures TrimStart(s) == [] || !IsTrimmable(TrimStart(s)[0])
  {
    if s != [] && IsTrimmable(s[0]) {
      var t := s[1..];
      TrimStartSpec(t);
      var r := TrimStart(t);
      assert TrimStart(s) == r;
      assert t[|t| - |r|..] == s[|s| - |r|..];
      forall k | 0 <= k < |s| - |r| ensures IsTrimmable(s[k]) {
        if k > 0 {
          assert s[k] == t[k - 1];
        }
      }
    }
  }

  /** TrimEnd yields a prefix of `s` that does not end with a trimmable code point, and
      everything it drops is trimmable. */
  lemma {:induction false} TrimEndSpec(s: string)
    ensures |TrimEnd(s)| <= |s| && TrimEnd(s) == s[..|TrimEnd(s)|]
    ensures forall k :: |TrimEnd(s)| <= k < |s| ==> IsTrimmable(s[k])
    ensures TrimEnd(s) == [] || !IsTrimmable(TrimEnd(s)[|TrimEnd(s)| - 1])
  {
    if s != [] && IsTrimmable(s[|s| - 1]) {
      var t := s[..|s| - 1];
      TrimEndSpec(t);
      var r := TrimEnd(t);
      assert TrimEnd(s) == r;
      assert t[..|r|] == s[..|r|];
      forall k | |r| <= k < |s| ensures IsTrimmable(s[k]) {
        if k < |s| - 1 {
          assert s[k] == t[k];
        }
      }
    }
  }

  /** `r` is `s` with the `i` code points before it and those after it, all trimmable, removed. */
  ghost predicate IsStrippedAt(s: string, r: string, i: int)
  {
    0 <= i <= |s| - |r| && r == s[i..i + |r|] &&
    (forall k :: 0 <= k < i ==> IsTrimmable(s[k])) &&
    (forall k :: i + |r| <= k < |s| ==> IsTrimmable(s[k]))
  }

  /** `trim` drops only trimmable code points, and only at either end. */
  lemma TrimStripsEdges(s: string)
    ensures exists i :: IsStrippedAt(s, Trim(s), i)
  {
    var t := TrimStart(s);
    TrimStartSpec(s);
    TrimEndSpec(t);
    var r := TrimEnd(t);
    var i := |s| - |t|;
    assert r == s[i..i + |r|];
    forall k | i + |r| <= k < |s| ensures IsTrimmable(s[k]) {
      assert s[k] == t[k - i];
    }
    assert Trim(s) == r && IsStrippedAt(s, r, i);
  }

  /** Element `i` of `const [e0, e1, ...] = s`: the one-code-point string at `i`, or
      `undefined` (None) past the end of `s`. */
  function Destructured(s: string, i: nat): (r: Option<string>)
    ensures r.Some? <==> i < |s|
    ensures r.Some? ==> |r.value| == 1 && r.value[0] == s[i]
  {
    if i < |s| then Some([s[i]]) else None
  }
}
