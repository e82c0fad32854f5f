/** The Python text built-ins the request translator relies on, as functions on
    `seq<char>`: `sep.join(parts)`, `s.split(sep)` and `str(n)` for an integer,
    together with the inverse of each, so that what the builders produce can be
    read back. */
module Text {

  datatype Option<+T> = None | Some(value: T)

  /** `sep` occurs in `s` starting at index `j`. */
  predicate OccursAt(s: string, sep: string, j: nat) {
    j + |sep| <= |s| && s[j..j + |sep|] == sep
  }

  ghost predicate Contains(s: string, sep: string) {
    exists j: nat :: OccursAt(s, sep, j)
  }

  /** Python's `sep.join(parts)`. */
  function Join(parts: seq<string>, sep: string): string {
    if |parts| == 0 then ""
    else if |parts| == 1 then parts[0]
    else parts[0] + sep + Join(parts[1..], sep)
  }

  /** An occurrence of `sep` in `s[1..]` is one in `s`, one place further on. */
  lemma OccursShift(s: string, sep: string)
    requires |s| > 0
    ensures forall j: nat :: OccursAt(s[1..], sep, j) ==> OccursAt(s, sep, j + 1)
    ensures forall j: nat :: 0 < j && OccursAt(s, sep, j) ==> OccursAt(s[1..], sep, j - 1)
  {
    forall j: nat | OccursAt(s[1..], sep, j)
      ensures OccursAt(s, sep, j + 1)
    {
      assert s[1..][j..j + |sep|] == s[j + 1..j + 1 + |sep|];
    }
    forall j: nat | 0 < j && OccursAt(s, sep, j)
      ensures OccursAt(s[1..], sep, j - 1)
    {
      assert s[1..][j - 1..j - 1 + |sep|] == s[j..j + |sep|];
    }
  }

  /** The leftmost occurrence of `sep` in `s`, as Python's `s.find(sep)`. */
  function Find(s: string, sep: string): (r: Option<nat>)
    requires |sep| > 0
    ensures r.Some? ==> OccursAt(s, sep, r.value)
    ensures r.Some? ==> forall j: nat :: j < r.value ==> !OccursAt(s, sep, j)
    ensures r.None? <==> !Contains(s, sep)
    decreases |s|
  {
    if |s| < |sep| then None
    else if s[..|sep|] == sep then Some(0)
    else
      OccursShift(s, sep);
      match Find(s[1..], sep)
      case None => None
      case Some(k) => Some(k + 1)
  }

  /** A text is what comes before an occurrence of `sep`, `sep`, and what
      comes after. */
  lemma CutAt(s: string, sep: string, k: nat)
    requires OccursAt(s, sep, k)
    ensures s == s[..k] + sep + s[k + |sep|..]
  {
  }

  /** What lies before the first occurrence of `sep` does not contain it. */
  lemma BeforeFirst(s: string, sep: string, k: nat)
    requires |sep| > 0 && k <= |s|
    requires forall j: nat :: j < k ==> !OccursAt(s, sep, j)
    ensures !Contains(s[..k], sep)
  {
    forall j: nat | OccursAt(s[..k], sep, j)
      ensures OccursAt(s, sep, j)
    {
      assert s[j..j + |sep|] == s[..k][j..j + |sep|];
    }
  }

  lemma JoinCons(head: string, rest: seq<string>, sep: string)
    requires |rest| > 0
    ensures Join([head] + rest, sep) == head + sep + Join(rest, sep)
  {
    assert ([head] + rest)[1..] == rest;
  }

  /** Python's `s.split(sep)`: the pieces between the occurrences of `sep`
      found from the left; a text without `sep` is one piece. Joining the
      pieces gives the text back, and no piece contains the separator. */
  function Split(s: string, sep: string): (r: seq<string>)
    requires |sep| > 0
    ensures |r| > 0
    ensures Join(r, sep) == s
    ensures forall i :: 0 <= i < |r| ==> !Contains(r[i], sep)
    decreases |s|
  {
    match Find(s, sep)
    case None => [s]
    case Some(k) =>
      var rest := Split(s[k + |sep|..], sep);
      BeforeFirst(s, sep, k);
      CutAt(s, sep, k);
      JoinCons(s[..k], rest, sep);
      [s[..k]] + rest
  }

  /** A two-character separator whose characters differ cannot start inside a
      piece that does not contain it and end inside the separator after it,
      so its first occurrence in `p + sep + rest` is the one after `p`. */
  lemma FindAfterPiece(p: string, sep: string, rest: string)
    requires |sep| == 2 && sep[0] != sep[1]
    requires !Contains(p, sep)
    ensures Find(p + sep + rest, sep) == Some(|p|)
  {
    var s := p + sep + rest;
    assert s[|p|..|p| + 2] == sep;
    assert OccursAt(s, sep, |p|);
    var r := Find(s, sep);
    assert r.Some?;
    var k := r.value;
    if k < |p| {
      if k + 2 <= |p| {
        assert s[k..k + 2] == p[k..k + 2];
        assert OccursAt(p, sep, k);
      } else {
        assert false;
      }
    }
  }

  /** Splitting undoes joining: for at least one piece, none containing the
      separator, `join` then `split` on a separator of two distinct characters
      (such as ", ") gives back the pieces in order. */
  lemma {:induction false} SplitJoin(parts: seq<string>, sep: string)
    requires |sep| == 2 && sep[0] != sep[1]
    requires |parts| > 0
    requires forall i :: 0 <= i < |parts| ==> !Contains(parts[i], sep)
    ensures Split(Join(parts, sep), sep) == parts
    decreases |parts|
  {
    if |parts| > 1 {
      var p := parts[0];
      var tail := Join(parts[1..], sep);
      var s := p + sep + tail;
      assert Join(parts, sep) == s;
      FindAfterPiece(p, sep, tail);
      assert s[..|p|] == p && s[|p| + 2..] == tail;
      assert Split(s, sep) == [p] + Split(tail, sep);
      SplitJoin(parts[1..], sep);
      assert parts == [p] + parts[1..];
    }
  }

  predicate IsDigit(c: char) {
    '0' <= c <= '9'
  }

  predicate AllDigits(s: string) {
    forall i :: 0 <= i < |s| ==> IsDigit(s[i])
  }

  function DigitChar(d: nat): char
    requires d < 10
  {
    "0123456789"[d]
  }

  function DigitValue(c: char): nat
    requires IsDigit(c)
  {
    (c as int - '0' as int) as nat
  }

  /** Python's `str(n)` for a non-negative integer: decimal digits, most
      significant first, with no leading zero except in "0" itself. */
  function NatText(n: nat): (r: string)
    ensures |r| > 0 && AllDigits(r)
    ensures r[0] == '0' <==> n == 0
    ensures n < 10 <==> |r| == 1
    decreases n
  {
    if n < 10 then [DigitChar(n)]
    else NatText(n / 10) + [DigitChar(n % 10)]
  }

  /** Python's `str(i)` for an integer: a minus sign before the digits of a
      negative value. */
  function IntText(i: int): (r: string)
    ensures |r| > 0
    ensures forall k :: 0 <= k < |r| ==> IsDigit(r[k]) || (k == 0 && r[k] == '-' && i < 0)
  {
    if i < 0 then "-" + NatText(-i) else NatText(i)
  }

  /** The value of a run of decimal digits. */
  function ParseNat(s: string): nat
    requires AllDigits(s)
  {
    if |s| == 0 then 0
    else ParseNat(s[..|s| - 1]) * 10 + DigitValue(s[|s| - 1])
  }

  /** How an integer literal is read: optional minus sign, then digits. */
  function ReadInteger(s: string): Option<int> {
    if |s| > 1 && s[0] == '-' && AllDigits(s[1..]) then Some(0 - ParseNat(s[1..]))
    else if |s| > 0 && AllDigits(s) then Some(ParseNat(s))
    else None
  }

  lemma {:induction false} ParseNatText(n: nat)
    ensures ParseNat(NatText(n)) == n
    decreases n
  {
    if n >= 10 {
      var t := NatText(n / 10);
      ParseNatText(n / 10);
      assert (t + [DigitChar(n % 10)])[..|t|] == t;
    }
  }

  lemma NegativeTextReads(n: nat)
    requires n > 0
    ensures ReadInteger("-" + NatText(n)) == Some(0 - n)
  {
    var s := "-" + NatText(n);
    assert s[1..] == NatText(n);
    ParseNatText(n);
  }

  /** Reading back the decimal text of an integer gives that integer. */
  lemma IntTextReads(i: int)
    ensures ReadInteger(IntText(i)) == Some(i)
  {
    if i < 0 {
      NegativeTextReads(-i);
    } else {
      ParseNatText(i);
    }
  }
}
