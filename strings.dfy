/** Literal substring search and replacement on strings, as Python's
    `str.replace`, `str.find`, `str.split` and `str.join` perform them for a
    non-empty pattern: matches are found left to right, never overlap, and
    replaced text is never scanned again. */
module Strings {
  import opened Wrappers

  /** `p` occurs in `s` starting at index `i`. */
  predicate OccursAt(s: string, p: string, i: int)
  {
    0 <= i <= |s| && p <= s[i..]
  }

  ghost predicate Contains(s: string, p: string)
  {
    exists i :: OccursAt(s, p, i)
  }

  /** No character of `a` appears anywhere in `b`. */
  ghost predicate SharesNoChar(a: string, b: string)
  {
    forall i :: 0 <= i < |a| ==> a[i] !in b
  }

  /** An occurrence of `y` may start inside an occurrence of `x` (at any
      offset of `x`, including its first character) and overlap it. */
  ghost predicate StartsInside(x: string, y: string)
  {
    exists j :: 0 <= j < |x| && (x[j..] <= y || y <= x[j..])
  }

  /** Occurrences of `p` and of `q` can never overlap in any string. */
  ghost predicate Apart(p: string, q: string)
  {
    !StartsInside(p, q) && !StartsInside(q, p)
  }

  /** `s.replace(p, r)`: every non-overlapping occurrence of `p`, found left
      to right, becomes `r`; the text `r` itself is not scanned again. */
  function Replace(s: string, p: string, r: string): string
    requires p != []
    decreases |s|
  {
    if s == [] then []
    else if p <= s then r + Replace(s[|p|..], p, r)
    else [s[0]] + Replace(s[1..], p, r)
  }

  /** `s.find(p)`: the index of the leftmost occurrence, or None. */
  function Find(s: string, p: string): (r: Option<nat>)
    ensures r.Some? ==> OccursAt(s, p, r.value)
    ensures r.Some? ==> forall j :: 0 <= j < r.value ==> !OccursAt(s, p, j)
    ensures r.None? <==> !Contains(s, p)
    decreases |s|
  {
    assert s[0..] == s;
    if p <= s then assert OccursAt(s, p, 0); Some(0)
    else if s == [] then None
    else
      assert !OccursAt(s, p, 0);
      OccursAtTail(s, p);
      match Find(s[1..], p)
      case None => None
      case Some(i) => Some(i + 1)
  }

  /** `s.split(p)`: the pieces of `s` between the leftmost non-overlapping
      occurrences of `p`; no piece contains `p`. */
  function Split(s: string, p: string): (parts: seq<string>)
    requires p != []
    ensures |parts| >= 1
    ensures forall k :: 0 <= k < |parts| ==> !Contains(parts[k], p)
    decreases |s|
  {
    match Find(s, p)
    case None => [s]
    case Some(i) =>
      NoOccurrenceBefore(s, p, i);
      [s[..i]] + Split(s[i + |p|..], p)
  }

  /** `sep.join(parts)`. */
  function Join(parts: seq<string>, sep: string): string
  {
    if parts == [] then []
    else if |parts| == 1 then parts[0]
    else parts[0] + sep + Join(parts[1..], sep)
  }

  // ---------------------------------------------------------------------
  // Small facts about occurrences

  lemma OccursAtTail(s: string, p: string)
    requires s != []
    ensures forall j :: 0 <= j ==> (OccursAt(s[1..], p, j) <==> OccursAt(s, p, j + 1))
    ensures forall i :: 1 <= i ==> (OccursAt(s, p, i) <==> OccursAt(s[1..], p, i - 1))
  {
    forall j | 0 <= j ensures OccursAt(s[1..], p, j) <==> OccursAt(s, p, j + 1) {
      if 0 <= j <= |s| - 1 {
        assert s[1..][j..] == s[j + 1..];
      }
    }
  }

  /** Moving an occurrence between a string and one of its suffixes. */
  lemma OccursInSuffix(s: string, p: string, k: nat, i: int)
    requires k <= |s| && 0 <= i
    ensures OccursAt(s[k..], p, i) <==> OccursAt(s, p, i + k)
  {
    if 0 <= i <= |s| - k {
      assert s[k..][i..] == s[i + k..];
    }
  }

  lemma ContainsInSuffix(s: string, p: string, k: nat)
    requires k <= |s|
    ensures Contains(s[k..], p) ==> Contains(s, p)
  {
    if Contains(s[k..], p) {
      var i :| OccursAt(s[k..], p, i);
      OccursInSuffix(s, p, k, i);
    }
  }

  lemma ContainsAfterPrefix(a: string, t: string, p: string)
    ensures Contains(t, p) ==> Contains(a + t, p)
  {
    assert (a + t)[|a|..] == t;
    ContainsInSuffix(a + t, p, |a|);
  }

  /** Text none of whose characters occur in `p` cannot host the start of an
      occurrence of `p`. */
  lemma {:induction false} ContainsSkipsPrefix(a: string, t: string, p: string)
    requires p != [] && SharesNoChar(a, p)
    ensures Contains(a + t, p) ==> Contains(t, p)
  {
    if Contains(a + t, p) {
      var i :| OccursAt(a + t, p, i);
      assert (a + t)[i] == p[0] && p[0] in p;
      assert forall k :: 0 <= k < |a| ==> (a + t)[k] == a[k];
      assert |a| <= i;
      assert (a + t)[|a|..] == t;
      OccursInSuffix(a + t, p, |a|, i - |a|);
    }
  }

  /** A piece of `s` before the leftmost occurrence of `p` contains no `p`. */
  lemma NoOccurrenceBefore(s: string, p: string, i: nat)
    requires p != [] && i <= |s|
    requires forall j :: 0 <= j < i ==> !OccursAt(s, p, j)
    ensures !Contains(s[..i], p)
  {
    forall j | OccursAt(s[..i], p, j) ensures OccursAt(s, p, j) {
      assert s[..i][j..] <= s[j..];
    }
  }

  lemma DropFromPrefix(a: string, t: string, i: nat)
    requires a <= t && i <= |a|
    ensures a[i..] <= t[i..]
  {
    assert a[i..] == t[i..][..|a| - i];
  }

  /** Two prefixes of the same string: the shorter is a prefix of the longer. */
  lemma PrefixesAgree(a: string, b: string, t: string)
    requires a <= t && b <= t
    ensures a <= b || b <= a
  {
    if |a| <= |b| {
      assert a == b[..|a|];
    } else {
      assert b == a[..|b|];
    }
  }

  /** When `x` starts `s`, an occurrence of `y` starting inside `x` means `y`
      may start inside `x`. */
  lemma OverlapStartsInside(s: string, x: string, y: string, i: int)
    requires x <= s
    ensures 0 <= i < |x| && OccursAt(s, y, i) ==> StartsInside(x, y)
  {
    if 0 <= i < |x| && OccursAt(s, y, i) {
      DropFromPrefix(x, s, i);
      PrefixesAgree(x[i..], y, s[i..]);
    }
  }

  /** Comparing a prefix character by character. */
  lemma PrefixByHead(q: string, u: string)
    requires q != [] && u != []
    ensures q <= u <==> q[0] == u[0] && q[1..] <= u[1..]
  {
    if q[0] == u[0] && q[1..] <= u[1..] {
      assert q == [u[0]] + u[1..][..|q| - 1];
      assert u[..|q|] == [u[0]] + u[1..][..|q| - 1];
    }
  }

  lemma SharesNoCharTail(r: string, q: string)
    requires q != [] && SharesNoChar(r, q)
    ensures SharesNoChar(r, q[1..])
  {
    assert forall c :: c in q[1..] ==> c in q;
  }

  /** Strings that share no character never overlap. */
  lemma NoSharedCharApart(p: string, q: string)
    requires p != [] && q != [] && SharesNoChar(p, q)
    ensures Apart(p, q) && Apart(q, p)
  {
    forall j | 0 <= j < |p| ensures !(p[j..] <= q) && !(q <= p[j..]) {
      assert p[j..][0] == p[j] && p[j] !in q && q[0] in q;
    }
    forall j | 0 <= j < |q| ensures !(q[j..] <= p) && !(p <= q[j..]) {
      assert q[j..][0] == q[j] && q[j] in q && p[0] !in q;
    }
  }

  /** Apart strings do not contain each other. */
  lemma ApartNotContained(x: string, y: string)
    requires y != [] && Apart(x, y)
    ensures !Contains(x, y)
  {
    assert forall i :: 0 <= i < |x| ==> !(y <= x[i..]);
    assert x[|x|..] == [];
  }

  // ---------------------------------------------------------------------
  // Replace: what it keeps, what it removes, what it creates

  /** A string that does not start with the pattern keeps its first
      character. */
  lemma ReplaceNotAtHead(s: string, p: string, r: string)
    requires p != [] && s != [] && !OccursAt(s, p, 0)
    ensures Replace(s, p, r) == [s[0]] + Replace(s[1..], p, r)
  {
    assert s[0..] == s;
  }

  lemma NoOccurrenceInTail(s: string, p: string, i: nat)
    requires 1 <= i <= |s|
    requires forall j :: 0 <= j < i ==> !OccursAt(s, p, j)
    ensures forall j :: 0 <= j < i - 1 ==> !OccursAt(s[1..], p, j)
  {
    forall j | 0 <= j < i - 1 ensures !OccursAt(s[1..], p, j) {
      OccursInSuffix(s, p, 1, j);
    }
  }

  lemma ConsPrefix(s: string, i: nat, rest: string)
    requires 1 <= i <= |s|
    ensures [s[0]] + (s[1..][..i - 1] + rest) == s[..i] + rest
  {
    assert s[..i] == [s[0]] + s[1..][..i - 1];
  }

  /** Text before the first occurrence is copied unchanged. */
  lemma {:induction false} ReplaceKeepsPrefix(s: string, p: string, r: string, i: nat)
    requires p != [] && i <= |s|
    requires forall j :: 0 <= j < i ==> !OccursAt(s, p, j)
    ensures Replace(s, p, r) == s[..i] + Replace(s[i..], p, r)
    decreases i
  {
    if i == 0 {
      assert s[0..] == s;
    } else {
      ReplaceNotAtHead(s, p, r);
      NoOccurrenceInTail(s, p, i);
      ReplaceKeepsPrefix(s[1..], p, r, i - 1);
      assert s[1..][i - 1..] == s[i..];
      ConsPrefix(s, i, Replace(s[i..], p, r));
    }
  }

  /** A string without the pattern is left as it is. */
  lemma {:induction false} ReplaceUnchanged(s: string, p: string, r: string)
    requires p != [] && !Contains(s, p)
    ensures Replace(s, p, r) == s
  {
    ReplaceKeepsPrefix(s, p, r, |s|);
    assert s[..|s|] == s;
  }

  /** An occurrence cuts the string into three parts. */
  lemma CutAt(s: string, p: string, i: nat)
    requires OccursAt(s, p, i)
    ensures i + |p| <= |s| && s == s[..i] + p + s[i + |p|..]
  {
    assert s[i..][..|p|] == p;
  }

  /** Splitting at the leftmost occurrence. */
  lemma SplitAtFirst(s: string, p: string, i: nat)
    requires p != [] && Find(s, p) == Some(i)
    ensures i + |p| <= |s|
    ensures Split(s, p) == [s[..i]] + Split(s[i + |p|..], p)
  {
    CutAt(s, p, i);
    var parts := Split(s, p);
    assert parts == [s[..i]] + Split(s[i + |p|..], p);
  }

  lemma JoinCons(x: string, tail: seq<string>, sep: string)
    requires tail != []
    ensures Join([x] + tail, sep) == x + sep + Join(tail, sep)
  {
    assert ([x] + tail)[1..] == tail;
  }

  /** Splitting on `p` and joining with `p` gives back the original. */
  lemma {:induction false} SplitJoin(s: string, p: string)
    requires p != []
    ensures Join(Split(s, p), p) == s
    decreases |s|
  {
    var first := Find(s, p);
    if first.Some? {
      var i := first.value;
      var rest := s[i + |p|..];
      SplitAtFirst(s, p, i);
      JoinCons(s[..i], Split(rest, p), p);
      SplitJoin(rest, p);
      CutAt(s, p, i);
    }
  }

  /** Replace at the leftmost occurrence. */
  lemma ReplaceAtFirst(s: string, p: string, r: string, i: nat)
    requires p != [] && OccursAt(s, p, i)
    requires forall j :: 0 <= j < i ==> !OccursAt(s, p, j)
    ensures i + |p| <= |s|
    ensures Replace(s, p, r) == s[..i] + r + Replace(s[i + |p|..], p, r)
  {
    ReplaceKeepsPrefix(s, p, r, i);
    var u := s[i..];
    assert u != [] && p <= u;
    assert u[|p|..] == s[i + |p|..];
    var rest := Replace(u[|p|..], p, r);
    assert Replace(u, p, r) == r + rest;
    assert s[..i] + (r + rest) == s[..i] + r + rest;
  }

  /** Python's identity `s.replace(p, r) == r.join(s.split(p))`. */
  lemma {:induction false} ReplaceIsSplitJoin(s: string, p: string, r: string)
    requires p != []
    ensures Replace(s, p, r) == Join(Split(s, p), r)
    decreases |s|
  {
    var first := Find(s, p);
    if first.None? {
      ReplaceUnchanged(s, p, r);
    } else {
      var i := first.value;
      var rest := s[i + |p|..];
      ReplaceAtFirst(s, p, r, i);
      SplitAtFirst(s, p, i);
      JoinCons(s[..i], Split(rest, p), r);
      ReplaceIsSplitJoin(rest, p, r);
    }
  }

  /** Replacing a pattern with itself changes nothing. */
  lemma {:induction false} ReplaceWithItself(s: string, p: string)
    requires p != []
    ensures Replace(s, p, p) == s
  {
    ReplaceIsSplitJoin(s, p, p);
    SplitJoin(s, p);
  }

  /** If the replacement is present in the output, a prefix of the output
      made only of characters absent from `r` comes from the input. */
  lemma {:induction false} PrefixFromSource(q: string, u: string, p: string, r: string)
    requires p != [] && r != [] && SharesNoChar(r, q)
    ensures q <= Replace(u, p, r) ==> q <= u
    decreases |u|
  {
    if u == [] || q == [] {
    } else if p <= u {
      assert Replace(u, p, r)[0] == r[0] && r[0] !in q && q[0] in q;
    } else {
      var out := Replace(u, p, r);
      assert out == [u[0]] + Replace(u[1..], p, r);
      assert out[1..] == Replace(u[1..], p, r);
      SharesNoCharTail(r, q);
      PrefixFromSource(q[1..], u[1..], p, r);
      PrefixByHead(q, out);
      PrefixByHead(q, u);
    }
  }

  /** Every occurrence of `p` is gone, provided the replacement is non-empty
      and shares no character with `p`. */
  lemma {:induction false} ReplaceRemoves(s: string, p: string, r: string)
    requires p != [] && r != [] && SharesNoChar(r, p)
    ensures !Contains(Replace(s, p, r), p)
    decreases |s|
  {
    if s == [] {
    } else if p <= s {
      var rest := s[|p|..];
      ReplaceRemoves(rest, p, r);
      ContainsSkipsPrefix(r, Replace(rest, p, r), p);
    } else {
      var t := Replace(s[1..], p, r);
      ReplaceRemoves(s[1..], p, r);
      forall i ensures !OccursAt([s[0]] + t, p, i) {
        if i == 0 {
          SharesNoCharTail(r, p);
          PrefixFromSource(p[1..], s[1..], p, r);
          assert ([s[0]] + t)[1..] == t;
          PrefixByHead(p, [s[0]] + t);
          PrefixByHead(p, s);
          assert ([s[0]] + t)[0..] == [s[0]] + t;
        } else if i > 0 {
          assert ([s[0]] + t)[1..] == t;
          OccursInSuffix([s[0]] + t, p, 1, i - 1);
        }
      }
    }
  }

  /** Replacing never creates an occurrence of a string `q` that shares no
      character with the (non-empty) replacement. */
  lemma {:induction false} ReplaceAddsNoOccurrence(s: string, p: string, r: string, q: string)
    requires p != [] && q != [] && r != [] && SharesNoChar(r, q)
    ensures Contains(Replace(s, p, r), q) ==> Contains(s, q)
    decreases |s|
  {
    if s == [] {
    } else if p <= s {
      var rest := s[|p|..];
      ReplaceAddsNoOccurrence(rest, p, r, q);
      ContainsSkipsPrefix(r, Replace(rest, p, r), q);
      ContainsInSuffix(s, q, |p|);
    } else {
      var t := Replace(s[1..], p, r);
      ReplaceAddsNoOccurrence(s[1..], p, r, q);
      ContainsInSuffix(s, q, 1);
      if Contains([s[0]] + t, q) {
        var i :| OccursAt([s[0]] + t, q, i);
        if i == 0 {
          SharesNoCharTail(r, q);
          PrefixFromSource(q[1..], s[1..], p, r);
          assert ([s[0]] + t)[1..] == t;
          assert ([s[0]] + t)[0..] == [s[0]] + t;
          PrefixByHead(q, [s[0]] + t);
          PrefixByHead(q, s);
          assert s[0..] == s;
          assert OccursAt(s, q, 0);
        } else {
          assert ([s[0]] + t)[1..] == t;
          OccursInSuffix([s[0]] + t, q, 1, i - 1);
        }
      }
    }
  }

  /** An occurrence of `q` in a string that starts with `p` lies past `p`. */
  lemma KeepsPastPattern(s: string, p: string, q: string, i: int)
    requires p != [] && q != [] && Apart(p, q) && p <= s && OccursAt(s, q, i)
    ensures Contains(s[|p|..], q)
  {
    OverlapStartsInside(s, p, q, i);
    OccursInSuffix(s, q, |p|, i - |p|);
    assert OccursAt(s[|p|..], q, i - |p|);
  }

  /** No occurrence of `p` starts inside a leading `q`, after its first
      character. */
  lemma NoneInsideHead(s: string, p: string, q: string)
    requires p != [] && q != [] && Apart(p, q) && s != [] && q <= s
    ensures forall j :: 0 <= j < |q| - 1 ==> !OccursAt(s[1..], p, j)
  {
    forall j | 0 <= j < |q| - 1 ensures !OccursAt(s[1..], p, j) {
      OccursInSuffix(s, p, 1, j);
      OverlapStartsInside(s, q, p, j + 1);
    }
  }

  /** An occurrence of `q` at the start of `s` survives: no occurrence of
      `p` can start inside it. */
  lemma KeepsAtHead(s: string, p: string, r: string, q: string)
    requires p != [] && q != [] && Apart(p, q)
    requires s != [] && !(p <= s) && q <= s
    ensures Contains(Replace(s, p, r), q)
  {
    var t := s[1..];
    var n := |q|;
    NoneInsideHead(s, p, q);
    ReplaceKeepsPrefix(t, p, r, n - 1);
    var x := Replace(t[n - 1..], p, r);
    ConsPrefix(s, n, x);
    var out := Replace(s, p, r);
    assert out == [s[0]] + Replace(t, p, r);
    assert out == s[..n] + x;
    assert s[..n] == q;
    assert out[0..] == out;
    assert OccursAt(out, q, 0);
  }

  /** An occurrence of a string that can never overlap the pattern survives
      the replacement. */
  lemma {:induction false} ReplaceKeeps(s: string, p: string, r: string, q: string)
    requires p != [] && q != [] && Apart(p, q)
    ensures Contains(s, q) ==> Contains(Replace(s, p, r), q)
    decreases |s|
  {
    if s != [] && Contains(s, q) {
      var i :| OccursAt(s, q, i);
      if p <= s {
        var rest := s[|p|..];
        KeepsPastPattern(s, p, q, i);
        ReplaceKeeps(rest, p, r, q);
        ContainsAfterPrefix(r, Replace(rest, p, r), q);
      } else if i == 0 {
        assert s[0..] == s;
        KeepsAtHead(s, p, r, q);
      } else {
        assert OccursAt(s[1..], q, i - 1) by {
          OccursInSuffix(s, q, 1, i - 1);
        }
        ReplaceKeeps(s[1..], p, r, q);
        ContainsAfterPrefix([s[0]], Replace(s[1..], p, r), q);
      }
    }
  }

  /** If the pattern occurs, the replacement appears in the output. */
  lemma ReplaceInserts(s: string, p: string, r: string)
    requires p != []
    ensures Contains(s, p) ==> Contains(Replace(s, p, r), r)
  {
    match Find(s, p)
    case None =>
    case Some(i) =>
      ReplaceKeepsPrefix(s, p, r, i);
      assert s[i..] != [] && p <= s[i..];
      var out := Replace(s, p, r);
      assert out == s[..i] + (r + Replace(s[i..][|p|..], p, r));
      assert out[i..] == r + Replace(s[i..][|p|..], p, r);
      assert OccursAt(out, r, i);
  }

  // ---------------------------------------------------------------------
  // Two replacements by the same text commute

  /** Text sharing no character with `q` is copied before `q` is looked for. */
  lemma {:induction false} ReplaceAfterForeign(x: string, t: string, q: string, r: string)
    requires q != [] && SharesNoChar(x, q)
    ensures Replace(x + t, q, r) == x + Replace(t, q, r)
    decreases |x|
  {
    if x == [] {
      assert x + t == t;
    } else {
      assert (x + t)[0] == x[0] && x[0] !in q && q[0] in q;
      assert (x + t)[1..] == x[1..] + t;
      ReplaceAfterForeign(x[1..], t, q, r);
    }
  }

  lemma ReplaceAfterPattern(p: string, t: string, r: string)
    requires p != []
    ensures Replace(p + t, p, r) == r + Replace(t, p, r)
  {
    assert (p + t)[|p|..] == t;
  }

  /** When `a` starts `s`, a replacement of a pattern apart from `a` copies it. */
  lemma ReplaceAfterApart(s: string, a: string, b: string, r: string)
    requires a != [] && b != [] && a <= s && Apart(a, b)
    ensures Replace(s, b, r) == a + Replace(s[|a|..], b, r)
  {
    forall j | 0 <= j < |a| ensures !OccursAt(s, b, j) {
      OverlapStartsInside(s, a, b, j);
    }
    ReplaceKeepsPrefix(s, b, r, |a|);
    assert s[..|a|] == a;
  }

  /** Both orders of the two replacements turn a leading `a` into `r`. */
  lemma CommuteAtPattern(s: string, a: string, b: string, r: string)
    requires a != [] && b != [] && a <= s && Apart(a, b) && SharesNoChar(r, b)
    ensures Replace(Replace(s, a, r), b, r) == r + Replace(Replace(s[|a|..], a, r), b, r)
    ensures Replace(Replace(s, b, r), a, r) == r + Replace(Replace(s[|a|..], b, r), a, r)
  {
    var rest := s[|a|..];
    assert Replace(s, a, r) == r + Replace(rest, a, r);
    ReplaceAfterForeign(r, Replace(rest, a, r), b, r);
    ReplaceAfterApart(s, a, b, r);
    ReplaceAfterPattern(a, Replace(rest, b, r), r);
  }

  /** A first character that starts neither pattern is copied by both
      replacements: the second one finds no occurrence of `b` there. */
  lemma CommuteAtOther(s: string, a: string, b: string, r: string)
    requires a != [] && b != [] && r != [] && SharesNoChar(r, b)
    requires s != [] && !(a <= s) && !(b <= s)
    ensures Replace(Replace(s, a, r), b, r) == [s[0]] + Replace(Replace(s[1..], a, r), b, r)
  {
    var x := Replace(s[1..], a, r);
    assert Replace(s, a, r) == [s[0]] + x;
    SharesNoCharTail(r, b);
    PrefixFromSource(b[1..], s[1..], a, r);
    PrefixByHead(b, [s[0]] + x);
    PrefixByHead(b, s);
    assert ([s[0]] + x)[1..] == x;
  }

  /** Replacing `a` then `b` by `r` gives the same as `b` then `a`, when `a`
      and `b` can never overlap and `r` shares no character with either. */
  lemma {:induction false} ReplaceCommute(s: string, a: string, b: string, r: string)
    requires a != [] && b != [] && r != [] && Apart(a, b)
    requires SharesNoChar(r, a) && SharesNoChar(r, b)
    ensures Replace(Replace(s, a, r), b, r) == Replace(Replace(s, b, r), a, r)
    decreases |s|
  {
    if s == [] {
    } else if a <= s {
      CommuteAtPattern(s, a, b, r);
      ReplaceCommute(s[|a|..], a, b, r);
    } else if b <= s {
      CommuteAtPattern(s, b, a, r);
      ReplaceCommute(s[|b|..], a, b, r);
    } else {
      CommuteAtOther(s, a, b, r);
      CommuteAtOther(s, b, a, r);
      ReplaceCommute(s[1..], a, b, r);
    }
  }

  // ---------------------------------------------------------------------
  // Braced placeholders such as `{{char}}`

  function Braced(name: string): string
  {
    "{{" + name + "}}"
  }

  ghost predicate BraceFree(name: string)
  {
    '{' !in name && '}' !in name
  }

  /** One braced placeholder starts another only when the names agree. */
  lemma BracedPrefix(a: string, b: string)
    requires BraceFree(a) && BraceFree(b)
    ensures Braced(a) <= Braced(b) ==> a == b
  {
    var x, y := Braced(a), Braced(b);
    if x <= y {
      assert x[2 + |a|] == '}';
      assert forall k :: 2 <= k < 2 + |b| ==> y[k] == b[k - 2] && y[k] != '}';
      assert |a| == |b|;
      assert a == x[2..2 + |a|] == y[2..2 + |b|] == b;
    }
  }

  /** An occurrence of one braced placeholder cannot start inside another. */
  lemma BracedNotStartsInside(a: string, b: string)
    requires BraceFree(a) && BraceFree(b) && a != b
    ensures !StartsInside(Braced(a), Braced(b))
  {
    var x, y := Braced(a), Braced(b);
    BracedPrefix(a, b);
    BracedPrefix(b, a);
    forall j | 0 <= j < |x| ensures !(x[j..] <= y) && !(y <= x[j..]) {
      if j == 1 {
        assert x[1..][1] == x[2] && x[2] != '{' && y[1] == '{';
      } else if j >= 2 {
        assert x[j] != '{' by {
          if j < 2 + |a| {
            assert x[j] == a[j - 2];
          }
        }
        assert x[j..][0] == x[j] && y[0] == '{';
      }
    }
  }

  lemma BracedApart(a: string, b: string)
    requires BraceFree(a) && BraceFree(b) && a != b
    ensures Apart(Braced(a), Braced(b))
  {
    BracedNotStartsInside(a, b);
    BracedNotStartsInside(b, a);
  }
}
