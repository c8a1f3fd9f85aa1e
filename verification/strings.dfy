/** The parts of Go's `strings` package the history searcher relies on:
    `strings.SplitN`, `strings.Split` and `strings.Join`, over `seq<char>`. */
module Strings {
  import opened Wrappers

  function Min(a: nat, b: nat): nat { if a <= b then a else b }

  /** Number of occurrences of `c` in `s`. */
  function Count(s: string, c: char): nat
  {
    if s == [] then 0 else (if s[0] == c then 1 else 0) + Count(s[1..], c)
  }

  lemma {:induction false} CountConcat(a: string, b: string, c: char)
    ensures Count(a + b, c) == Count(a, c) + Count(b, c)
  {
    if a == [] {
      assert a + b == b;
    } else {
      assert (a + b)[1..] == a[1..] + b;
      CountConcat(a[1..], b, c);
    }
  }

  lemma {:induction false} CountAbsent(s: string, c: char)
    ensures c !in s <==> Count(s, c) == 0
  {
    if s != [] {
      CountAbsent(s[1..], c);
      assert c in s <==> s[0] == c || c in s[1..];
    }
  }

  /** `Count` split around the occurrence of `c` at position `k`. */
  lemma CountAround(s: string, k: nat, c: char)
    requires k < |s| && s[k] == c && c !in s[..k]
    ensures Count(s, c) == 1 + Count(s[k + 1..], c)
  {
    assert s == s[..k] + ([s[k]] + s[k + 1..]);
    CountConcat(s[..k], [s[k]] + s[k + 1..], c);
    CountConcat([s[k]], s[k + 1..], c);
    CountAbsent(s[..k], c);
    assert Count([s[k]], c) == 1 by {
      assert [s[k]][1..] == [];
    }
  }

  /** `strings.IndexByte`: the first position of `c` in `s`, if any. */
  function IndexOf(s: string, c: char): (r: Option<nat>)
    ensures r.None? <==> c !in s
    ensures r.Some? ==> r.value < |s| && s[r.value] == c && c !in s[..r.value]
  {
    if s == [] then None
    else if s[0] == c then Some(0)
    else
      match IndexOf(s[1..], c)
      case None => None
      case Some(k) =>
        assert s[..k + 1] == [s[0]] + s[1..][..k];
        Some(k + 1)
  }

  /** The position found by `IndexOf` is the only one with nothing of `c` before it. */
  lemma IndexOfPrefix(a: string, c: char, b: string)
    requires c !in a
    ensures IndexOf(a + [c] + b, c) == Some(|a|)
  {
    var s := a + [c] + b;
    assert s[|a|] == c;
  }

  /** `strings.Join(parts, sep)`. */
  function Join(parts: seq<string>, sep: string): string
  {
    if parts == [] then ""
    else if |parts| == 1 then parts[0]
    else parts[0] + sep + Join(parts[1..], sep)
  }

  /** Joining one more part at the end adds the separator and that part. */
  lemma {:induction false} JoinSnoc(parts: seq<string>, last: string, sep: string)
    requires parts != []
    ensures Join(parts + [last], sep) == Join(parts, sep) + sep + last
  {
    if |parts| == 1 {
      assert (parts + [last])[1..] == [last];
    } else {
      assert (parts + [last])[1..] == parts[1..] + [last];
      JoinSnoc(parts[1..], last, sep);
    }
  }

  /** Joining a part in front of a nonempty list puts the separator after it. */
  lemma JoinCons(head: string, rest: seq<string>, sep: string)
    requires rest != []
    ensures Join([head] + rest, sep) == head + sep + Join(rest, sep)
  {
    assert ([head] + rest)[1..] == rest;
  }

  /** Cutting `s` at an occurrence of `c` at `k`: the part before it and the parts of what
      follows join back to `s`. */
  lemma CutAt(s: string, c: char, k: nat, rest: seq<string>)
    requires k < |s| && s[k] == c
    requires rest != [] && Join(rest, [c]) == s[k + 1..]
    ensures Join([s[..k]] + rest, [c]) == s
  {
    var head, tail := s[..k], s[k + 1..];
    assert s == head + [c] + tail by {
      assert s == head + s[k..] && s[k..] == [c] + tail;
    }
    JoinCons(head, rest, [c]);
  }

  /** `strings.SplitN(s, string(c), n)` for `n >= 1`: at most `n` fields; the last one
      is the unsplit remainder. */
  function SplitN(s: string, c: char, n: nat): (r: seq<string>)
    requires n >= 1
    ensures 1 <= |r| <= n
    ensures |r| == Min(n, Count(s, c) + 1)
    ensures Join(r, [c]) == s
    ensures forall i :: 0 <= i < |r| - 1 ==> c !in r[i]
    ensures |r| < n ==> c !in r[|r| - 1]
    decreases n
  {
    if n == 1 then [s]
    else
      match IndexOf(s, c)
      case None =>
        CountAbsent(s, c);
        [s]
      case Some(k) =>
        CountAround(s, k, c);
        var rest := SplitN(s[k + 1..], c, n - 1);
        CutAt(s, c, k, rest);
        assert ([s[..k]] + rest)[1..] == rest;
        [s[..k]] + rest
  }

  /** `strings.Split(s, string(c))`: every field, none of them holding `c`. */
  function Split(s: string, c: char): (r: seq<string>)
    ensures |r| == Count(s, c) + 1
    ensures Join(r, [c]) == s
    ensures forall i :: 0 <= i < |r| ==> c !in r[i]
    decreases |s|
  {
    match IndexOf(s, c)
    case None =>
      CountAbsent(s, c);
      [s]
    case Some(k) =>
      CountAround(s, k, c);
      var rest := Split(s[k + 1..], c);
      CutAt(s, c, k, rest);
      assert ([s[..k]] + rest)[1..] == rest;
      [s[..k]] + rest
  }

  /** Splitting undoes joining when no part holds the separator. */
  lemma SplitStep(a: string, c: char, b: string)
    requires c !in a
    ensures Split(a + [c] + b, c) == [a] + Split(b, c)
  {
    var s := a + [c] + b;
    IndexOfPrefix(a, c, b);
    assert s[..|a|] == a && s[|a| + 1..] == b;
  }

  lemma {:induction false} SplitJoin(parts: seq<string>, c: char)
    requires parts != []
    requires forall i :: 0 <= i < |parts| ==> c !in parts[i]
    ensures Split(Join(parts, [c]), c) == parts
  {
    if |parts| == 1 {
      CountAbsent(parts[0], c);
    } else {
      var tail := Join(parts[1..], [c]);
      assert Join(parts, [c]) == parts[0] + [c] + tail;
      SplitStep(parts[0], c, tail);
      SplitJoin(parts[1..], c);
      assert parts == [parts[0]] + parts[1..];
    }
  }

  /** One step of `SplitN`: a field free of `c` followed by `c` is split off first. */
  lemma SplitNStep(a: string, c: char, b: string, n: nat)
    requires c !in a && n >= 2
    ensures SplitN(a + [c] + b, c, n) == [a] + SplitN(b, c, n - 1)
  {
    var s := a + [c] + b;
    IndexOfPrefix(a, c, b);
    assert s[..|a|] == a && s[|a| + 1..] == b;
  }

  /** `Join` of four parts, written out. */
  lemma Join4(parts: seq<string>, c: char)
    requires |parts| == 4
    ensures Join(parts, [c]) == parts[0] + [c] + parts[1] + [c] + parts[2] + [c] + parts[3]
  {
    assert parts[1..][1..] == parts[2..];
    assert parts[2..][1..] == parts[3..];
    assert Join(parts[2..], [c]) == parts[2] + [c] + parts[3];
    assert Join(parts[1..], [c]) == parts[1] + [c] + (parts[2] + [c] + parts[3]);
  }
}
