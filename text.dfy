/** The Python string operations the core relies on, over strings as sequences of characters:
    whitespace and strip(), lower() on ASCII letters, endswith(), replace(p, ""), split() with no
    argument, sep.join(parts) and the prefix slice s[:k]. */
module Text {

  /** The characters Python's str.isspace() accepts, which str.strip() and str.split() remove. */
  predicate IsSpace(c: char) {
    var n := c as int;
    n == 0x20 || 0x09 <= n <= 0x0D || 0x1C <= n <= 0x1F || n == 0x85 || n == 0xA0 ||
    n == 0x1680 || 0x2000 <= n <= 0x200A || n == 0x2028 || n == 0x2029 || n == 0x202F ||
    n == 0x205F || n == 0x3000
  }

  predicate IsBlank(s: string) {
    forall i :: 0 <= i < |s| ==> IsSpace(s[i])
  }

  /** s.lstrip(): drops exactly the longest all-whitespace prefix. */
  function TrimLeft(s: string): (r: string)
    ensures |r| <= |s| && r == s[|s| - |r|..]
    ensures forall i :: 0 <= i < |s| - |r| ==> IsSpace(s[i])
    ensures r != [] ==> !IsSpace(r[0])
    decreases |s|
  {
    if s != [] && IsSpace(s[0]) then TrimLeft(s[1..]) else s
  }

  /** s.rstrip(): drops exactly the longest all-whitespace suffix. */
  function TrimRight(s: string): (r: string)
    ensures |r| <= |s| && r == s[..|r|]
    ensures forall i :: |r| <= i < |s| ==> IsSpace(s[i])
    ensures r != [] ==> !IsSpace(r[|r| - 1])
    decreases |s|
  {
    if s != [] && IsSpace(s[|s| - 1]) then TrimRight(s[..|s| - 1]) else s
  }

  /** s.strip() */
  function Strip(s: string): string {
    TrimRight(TrimLeft(s))
  }

  /** `not s.strip()` holds exactly for the all-whitespace strings, the empty one included. */
  lemma StripEmptyIffBlank(s: string)
    ensures Strip(s) == [] <==> IsBlank(s)
  {
  }

  /** The result of strip() is a slice of its input with no whitespace at either end,
      and stripping it again changes nothing. */
  lemma StripShape(s: string)
    ensures var r := Strip(s);
      var a := |s| - |TrimLeft(s)|;
      a + |r| <= |s| && s[a..a + |r|] == r &&
      (r != [] ==> !IsSpace(r[0]) && !IsSpace(r[|r| - 1])) &&
      Strip(r) == r
  {
    var l := TrimLeft(s);
    var r := Strip(s);
    var a := |s| - |l|;
    assert s[a..a + |r|] == r;
    if r != [] {
      assert r[0] == l[0];
    }
  }

  /** Text with no whitespace at either end is left as it is. */
  lemma StripKeepsTrimmed(s: string)
    requires s != [] && !IsSpace(s[0]) && !IsSpace(s[|s| - 1])
    ensures Strip(s) == s
  {
    assert TrimLeft(s) == s;
  }

  function LowerChar(c: char): char {
    if 'A' <= c <= 'Z' then (c as int + 32) as char else c
  }

  /** s.lower(), on the ASCII letters. */
  function Lower(s: string): string {
    seq(|s|, i requires 0 <= i < |s| => LowerChar(s[i]))
  }

  predicate EndsWith(s: string, suffix: string) {
    |suffix| <= |s| && s[|s| - |suffix|..] == suffix
  }

  /** p occurs somewhere in s. */
  predicate Occurs(s: string, p: string)
    requires |p| > 0
    decreases |s|
  {
    |p| <= |s| && (s[..|p|] == p || Occurs(s[1..], p))
  }

  /** s.replace(p, ""): scans left to right and drops each non-overlapping occurrence of p;
      text that comes together only after a removal is not scanned again. */
  function RemoveAll(s: string, p: string): (r: string)
    requires |p| > 0
    ensures |r| <= |s|
    decreases |s|
  {
    if |s| < |p| then s
    else if s[..|p|] == p then RemoveAll(s[|p|..], p)
    else [s[0]] + RemoveAll(s[1..], p)
  }

  /** replace(p, "") leaves s as it is exactly when p does not occur in it; otherwise it
      removes at least one whole copy of p. */
  lemma {:induction false} RemoveAllIdentityIff(s: string, p: string)
    requires |p| > 0
    ensures RemoveAll(s, p) == s <==> !Occurs(s, p)
    ensures Occurs(s, p) ==> |RemoveAll(s, p)| <= |s| - |p|
    decreases |s|
  {
    if |s| < |p| {
    } else if s[..|p|] == p {
    } else {
      RemoveAllIdentityIff(s[1..], p);
      if !Occurs(s, p) {
        assert [s[0]] + s[1..] == s;
      }
    }
  }

  /** The first whitespace-free run at the start of s. */
  function TakeToken(s: string): (t: string)
    ensures |t| <= |s| && t == s[..|t|]
    ensures forall i :: 0 <= i < |t| ==> !IsSpace(t[i])
    ensures |t| < |s| ==> IsSpace(s[|t|])
    ensures s != [] && !IsSpace(s[0]) ==> |t| > 0
    decreases |s|
  {
    if s == [] || IsSpace(s[0]) then [] else [s[0]] + TakeToken(s[1..])
  }

  /** s.split(): the maximal whitespace-free runs of s, in order. */
  function Split(s: string): seq<string>
    decreases |s|
  {
    if s == [] then []
    else if IsSpace(s[0]) then Split(s[1..])
    else
      var t := TakeToken(s);
      [t] + Split(s[|t|..])
  }

  /** A word followed by a space is split off as the first field. */
  lemma SplitWord(w: string, rest: string)
    requires |w| > 0 && forall i :: 0 <= i < |w| ==> !IsSpace(w[i])
    ensures Split(w + " " + rest) == [w] + Split(rest)
  {
    var s := w + " " + rest;
    var t := TakeToken(s);
    assert forall i :: 0 <= i < |w| ==> s[i] == w[i] && !IsSpace(s[i]);
    assert IsSpace(s[|w|]);
    assert t == w;
    assert s[|t|..] == " " + rest;
    assert (" " + rest)[1..] == rest;
  }

  /** sep.join(parts) */
  function Join(parts: seq<string>, sep: string): string
    decreases |parts|
  {
    if parts == [] then ""
    else if |parts| == 1 then parts[0]
    else parts[0] + sep + Join(parts[1..], sep)
  }

  /** Where part i begins inside sep.join(parts): after every earlier part and its separator. */
  function PartOffset(parts: seq<string>, sep: string, i: nat): nat
    requires i <= |parts|
    decreases i
  {
    if i == 0 then 0 else PartOffset(parts, sep, i - 1) + |parts[i - 1]| + |sep|
  }

  lemma {:induction false} PartOffsetShift(parts: seq<string>, sep: string, i: nat)
    requires 0 < i <= |parts|
    ensures PartOffset(parts, sep, i) == |parts[0]| + |sep| + PartOffset(parts[1..], sep, i - 1)
    decreases i
  {
    if i > 1 {
      PartOffsetShift(parts, sep, i - 1);
    }
  }

  /** A slice that lies in the right operand of a concatenation. */
  lemma SliceRight(a: string, b: string, lo: nat, hi: nat)
    requires |a| <= lo <= hi <= |a| + |b|
    ensures (a + b)[lo..hi] == b[lo - |a|..hi - |a|]
  {
  }

  /** Each part stands, in order, at its offset in the joined string. */
  lemma {:induction false} JoinPartIn(parts: seq<string>, sep: string, i: nat)
    requires i < |parts|
    ensures var j := Join(parts, sep); var o := PartOffset(parts, sep, i);
      o + |parts[i]| <= |j| && j[o..o + |parts[i]|] == parts[i]
    decreases |parts|
  {
    if i == 0 {
      if |parts| > 1 {
        assert Join(parts, sep) == parts[0] + (sep + Join(parts[1..], sep));
      }
    } else {
      var tail := parts[1..];
      JoinPartIn(tail, sep, i - 1);
      PartOffsetShift(parts, sep, i);
      var head := parts[0] + sep;
      var o := PartOffset(tail, sep, i - 1);
      assert Join(parts, sep) == head + Join(tail, sep);
      assert tail[i - 1] == parts[i];
      SliceRight(head, Join(tail, sep), |head| + o, |head| + o + |parts[i]|);
    }
  }

  /** Every part but the last is followed by the separator. */
  lemma {:induction false} JoinSepAfter(parts: seq<string>, sep: string, i: nat)
    requires i + 1 < |parts|
    ensures var j := Join(parts, sep); var e := PartOffset(parts, sep, i) + |parts[i]|;
      e + |sep| <= |j| && j[e..e + |sep|] == sep
    decreases |parts|
  {
    if i == 0 {
      assert Join(parts, sep) == parts[0] + sep + Join(parts[1..], sep);
    } else {
      var tail := parts[1..];
      JoinSepAfter(tail, sep, i - 1);
      PartOffsetShift(parts, sep, i);
      var head := parts[0] + sep;
      var e := PartOffset(tail, sep, i - 1) + |tail[i - 1]|;
      assert Join(parts, sep) == head + Join(tail, sep);
      assert tail[i - 1] == parts[i];
      SliceRight(head, Join(tail, sep), |head| + e, |head| + e + |sep|);
    }
  }

  /** Each part stands, in order, at its offset in the joined string, followed by the separator
      unless it is the last. */
  lemma JoinPartAt(parts: seq<string>, sep: string, i: nat)
    requires i < |parts|
    ensures var j := Join(parts, sep); var o := PartOffset(parts, sep, i);
      o + |parts[i]| <= |j| && j[o..o + |parts[i]|] == parts[i] &&
      (i + 1 < |parts| ==> o + |parts[i]| + |sep| <= |j| &&
                           j[o + |parts[i]|..o + |parts[i]| + |sep|] == sep)
  {
    JoinPartIn(parts, sep, i);
    if i + 1 < |parts| {
      JoinSepAfter(parts, sep, i);
    }
  }

  /** Python's prefix slice s[:k], where a negative k counts back from the end. */
  function PyPrefix(s: string, k: int): (r: string)
    ensures |r| <= |s| && r == s[..|r|]
  {
    if k >= 0 then (if k <= |s| then s[..k] else s)
    else (if |s| + k >= 0 then s[..|s| + k] else [])
  }
}
