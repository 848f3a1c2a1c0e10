/** Models of the JavaScript string built-ins the page script relies on:
    `String.prototype.includes`, `replace` with a string pattern,
    `toLowerCase`, `trim`, and `Array.prototype.join` over strings. */
module JsStrings {

  datatype Option<T> = None | Some(value: T)

  /** `pat` occurs in `s` starting at index `i`. */
  predicate OccursAt(s: string, pat: string, i: nat)
  {
    i + |pat| <= |s| && s[i..i + |pat|] == pat
  }

  /** The first index at or after `from` at which `pat` occurs (`indexOf(pat, from)`),
      or None when there is none. */
  function IndexOfFrom(s: string, pat: string, from: nat): (r: Option<nat>)
    requires from <= |s|
    ensures r.Some? ==> from <= r.value && OccursAt(s, pat, r.value)
    ensures r.Some? ==> forall j: nat :: from <= j < r.value ==> !OccursAt(s, pat, j)
    ensures r.None? ==> forall j: nat :: from <= j ==> !OccursAt(s, pat, j)
    decreases |s| - from
  {
    if OccursAt(s, pat, from) then Some(from)
    else if from == |s| then None
    else IndexOfFrom(s, pat, from + 1)
  }

  function IndexOf(s: string, pat: string): Option<nat>
  {
    IndexOfFrom(s, pat, 0)
  }

  /** `s.includes(pat)`: some occurrence of `pat` in `s` exists. */
  function Includes(s: string, pat: string): (b: bool)
    ensures b <==> exists j: nat :: OccursAt(s, pat, j)
  {
    IndexOf(s, pat).Some?
  }

  /** Every string includes the empty string. */
  lemma IncludesEmpty(s: string)
    ensures Includes(s, "")
  {
    assert OccursAt(s, "", 0);
  }

  /** `s.replace(pat, rep)` with a string pattern: only the first occurrence is
      replaced (the replacement used here holds no `$` substitution patterns). */
  function ReplaceFirst(s: string, pat: string, rep: string): (r: string)
    ensures |r| == if Includes(s, pat) then |s| - |pat| + |rep| else |s|
  {
    match IndexOf(s, pat)
    case None => s
    case Some(i) => s[..i] + rep + s[i + |pat|..]
  }

  /** Without an occurrence of `pat`, `replace` leaves the string as it is. */
  lemma ReplaceFirstAbsent(s: string, pat: string, rep: string)
    requires !Includes(s, pat)
    ensures ReplaceFirst(s, pat, rep) == s
  {
  }

  /** When `i` is the first occurrence, exactly that occurrence is replaced. */
  lemma ReplaceFirstAt(s: string, pat: string, rep: string, i: nat)
    requires OccursAt(s, pat, i)
    requires forall j: nat :: j < i ==> !OccursAt(s, pat, j)
    ensures ReplaceFirst(s, pat, rep) == s[..i] + rep + s[i + |pat|..]
  {
    var r := IndexOf(s, pat);
    assert r.Some?;
    assert r.value == i;
  }

  /** `toLowerCase` on the ASCII letters; every other character is kept. */
  function LowerChar(c: char): char
  {
    if 'A' <= c <= 'Z' then (c as int + ('a' as int - 'A' as int)) as char else c
  }

  /** `s.toLowerCase()`: the same length, each ASCII capital replaced by its
      small letter, and every other character kept as it was. */
  function ToLower(s: string): (r: string)
    ensures |r| == |s|
    ensures forall i :: 0 <= i < |r| ==> !('A' <= r[i] <= 'Z')
    ensures forall i :: 0 <= i < |s| && !('A' <= s[i] <= 'Z') ==> r[i] == s[i]
    ensures forall i :: 0 <= i < |s| && 'A' <= s[i] <= 'Z' ==>
      'a' <= r[i] <= 'z' && r[i] as int - 'a' as int == s[i] as int - 'A' as int
  {
    seq(|s|, i requires 0 <= i < |s| => LowerChar(s[i]))
  }

  /** Lower-casing keeps the length, so the lower-cased query is empty exactly
      when the query is. */
  lemma ToLowerEmpty(s: string)
    ensures ToLower(s) == [] <==> s == []
  {
    assert |ToLower(s)| == |s|;
  }

  /** The characters `trim` removes: ECMAScript WhiteSpace (tab, vertical tab,
      form feed, ZWNBSP and the space separators) and LineTerminator. */
  predicate IsJsWhitespace(c: char)
  {
    c == '\t' || c == '\n' || c == '\U{B}' || c == '\U{C}' || c == '\r' || c == ' '
    || c == '\U{A0}' || c == '\U{1680}' || ('\U{2000}' <= c <= '\U{200A}')
    || c == '\U{2028}' || c == '\U{2029}' || c == '\U{202F}' || c == '\U{205F}'
    || c == '\U{3000}' || c == '\U{FEFF}'
  }

  /** Drops the leading whitespace: the result is a suffix of `s`, everything
      dropped is whitespace and the result does not start with whitespace. */
  function TrimStart(s: string): (r: string)
    ensures |r| <= |s| && r == s[|s| - |r|..]
    ensures forall i :: 0 <= i < |s| - |r| ==> IsJsWhitespace(s[i])
    ensures r == [] || !IsJsWhitespace(r[0])
  {
    if s != [] && IsJsWhitespace(s[0]) then TrimStart(s[1..]) else s
  }

  /** Drops the trailing whitespace: the result is a prefix of `s`, everything
      dropped is whitespace and the result does not end with whitespace. */
  function TrimEnd(s: string): (r: string)
    ensures |r| <= |s| && r == s[..|r|]
    ensures forall i :: |r| <= i < |s| ==> IsJsWhitespace(s[i])
    ensures r == [] || !IsJsWhitespace(r[|r| - 1])
  {
    if s != [] && IsJsWhitespace(s[|s| - 1]) then TrimEnd(s[..|s| - 1]) else s
  }

  /** `r` is the stretch of `s` starting at `a`, with only whitespace before
      and after it. */
  predicate StrippedAt(s: string, r: string, a: nat)
  {
    a + |r| <= |s| && r == s[a..a + |r|]
    && (forall i :: 0 <= i < a ==> IsJsWhitespace(s[i]))
    && (forall i :: a + |r| <= i < |s| ==> IsJsWhitespace(s[i]))
  }

  /** `s.trim()`: the result is `s` without its leading and trailing whitespace,
      and it is empty exactly when `s` is whitespace only. */
  function Trim(s: string): (r: string)
    ensures r == [] || (!IsJsWhitespace(r[0]) && !IsJsWhitespace(r[|r| - 1]))
    ensures r == [] <==> forall i :: 0 <= i < |s| ==> IsJsWhitespace(s[i])
    ensures exists a: nat :: StrippedAt(s, r, a)
  {
    var t := TrimStart(s);
    var r := TrimEnd(t);
    assert r != [] ==> r[0] == t[0];
    StripBoth(s, t, r);
    r
  }

  /** Dropping whitespace from the start of `s` (giving `t`) and then from the
      end of `t` (giving `r`) strips `s` down to one stretch. */
  lemma StripBoth(s: string, t: string, r: string)
    requires |t| <= |s| && t == s[|s| - |t|..]
    requires forall i :: 0 <= i < |s| - |t| ==> IsJsWhitespace(s[i])
    requires |r| <= |t| && r == t[..|r|]
    requires forall i :: |r| <= i < |t| ==> IsJsWhitespace(t[i])
    ensures StrippedAt(s, r, |s| - |t|)
  {
    var a := |s| - |t|;
    assert r == s[a..a + |r|];
    forall i | a + |r| <= i < |s| ensures IsJsWhitespace(s[i]) {
      assert s[i] == t[i - a];
    }
  }

  /** A slice of `pre + s` past `pre` is the matching slice of `s`. */
  lemma PrefixedSlice(pre: string, s: string, a: nat, b: nat)
    requires a <= b <= |s|
    ensures (pre + s)[..|pre|] == pre
    ensures (pre + s)[|pre| + a..|pre| + b] == s[a..b]
  {
  }

  /** `parts.join(sep)`: no parts give the empty string; otherwise the join
      starts with the first part, and consecutive parts
      are separated by one `sep` (`JoinPartAt`, `JoinSeparatorAt`). */
  function Join(parts: seq<string>, sep: string): (r: string)
    ensures parts == [] ==> r == ""
    ensures parts != [] ==> |parts[0]| <= |r| && r[..|parts[0]|] == parts[0]
  {
    if |parts| == 0 then ""
    else if |parts| == 1 then parts[0]
    else parts[0] + sep + Join(parts[1..], sep)
  }

  /** Where part `k` starts in `Join(parts, sep)`: after every earlier part,
      each followed by one `sep`. */
  function PartStart(parts: seq<string>, sep: string, k: nat): nat
    requires k <= |parts|
  {
    if k == 0 then 0 else PartStart(parts, sep, k - 1) + |parts[k - 1]| + |sep|
  }

  lemma {:induction false} PartStartTail(parts: seq<string>, sep: string, k: nat)
    requires 1 <= k <= |parts|
    ensures PartStart(parts, sep, k) == |parts[0]| + |sep| + PartStart(parts[1..], sep, k - 1)
  {
    if k > 1 {
      PartStartTail(parts, sep, k - 1);
    }
  }

  /** The length of a join: every part and one separator between each pair. */
  lemma {:induction false} JoinLength(parts: seq<string>, sep: string)
    requires |parts| > 0
    ensures |Join(parts, sep)| + |sep| == PartStart(parts, sep, |parts|)
  {
    if |parts| > 1 {
      JoinLength(parts[1..], sep);
      PartStartTail(parts, sep, |parts|);
    }
  }

  /** Part `k` stands in the join at `PartStart(parts, sep, k)`: the parts
      appear whole and in their original order. */
  lemma {:induction false} JoinPartAt(parts: seq<string>, sep: string, k: nat)
    requires k < |parts|
    ensures PartStart(parts, sep, k) + |parts[k]| <= |Join(parts, sep)|
    ensures Join(parts, sep)[PartStart(parts, sep, k)..PartStart(parts, sep, k) + |parts[k]|] == parts[k]
  {
    var j := Join(parts, sep);
    if k > 0 {
      var tail := parts[1..];
      var jt := Join(tail, sep);
      assert j == parts[0] + sep + jt;
      JoinPartAt(tail, sep, k - 1);
      PartStartTail(parts, sep, k);
      var o := |parts[0]| + |sep|;
      var p := PartStart(tail, sep, k - 1);
      assert tail[k - 1] == parts[k];
      assert j[o + p..o + p + |parts[k]|] == jt[p..p + |parts[k]|];
    }
  }

  /** Between part `k` and part `k + 1` of the join stands exactly one `sep`. */
  lemma {:induction false} JoinSeparatorAt(parts: seq<string>, sep: string, k: nat)
    requires k + 1 < |parts|
    ensures PartStart(parts, sep, k + 1) <= |Join(parts, sep)|
    ensures Join(parts, sep)[PartStart(parts, sep, k) + |parts[k]|..PartStart(parts, sep, k + 1)] == sep
  {
    var j := Join(parts, sep);
    var tail := parts[1..];
    var jt := Join(tail, sep);
    assert j == parts[0] + sep + jt;
    if k == 0 {
      assert PartStart(parts, sep, 1) == |parts[0]| + |sep|;
    } else {
      JoinSeparatorAt(tail, sep, k - 1);
      PartStartTail(parts, sep, k);
      PartStartTail(parts, sep, k + 1);
      var o := |parts[0]| + |sep|;
      var p := PartStart(tail, sep, k - 1);
      var q := PartStart(tail, sep, k);
      assert tail[k - 1] == parts[k];
      assert j[o + p + |parts[k]|..o + q] == jt[p + |tail[k - 1]|..q];
    }
  }
}
