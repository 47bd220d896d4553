/** Sequence helpers shared by the entity and the entity map: duplicate freedom,
    first occurrence, and `List.Remove`. */
module Lists {

  predicate NoDups<T(==)>(s: seq<T>) {
    forall i, j :: 0 <= i < j < |s| ==> s[i] != s[j]
  }

  /** Index of the first occurrence of `x` in `s`, or `|s|` when absent. */
  function IndexOf<T(==)>(s: seq<T>, x: T): (i: nat)
    ensures i <= |s|
    ensures i < |s| <==> x in s
    ensures i < |s| ==> s[i] == x
  {
    if s == [] then 0
    else if s[0] == x then 0
    else 1 + IndexOf(s[1..], x)
  }

  /** No element before `IndexOf(s, x)` equals `x`: it is the first occurrence. */
  lemma {:induction false} IndexOfFirst<T>(s: seq<T>, x: T)
    ensures forall j :: 0 <= j < IndexOf(s, x) ==> s[j] != x
  {
    if s != [] && s[0] != x {
      IndexOfFirst(s[1..], x);
      assert forall j :: 1 <= j < IndexOf(s, x) ==> s[j] == s[1..][j - 1];
    }
  }

  /** Extending a prefix by one element. */
  lemma PrefixStep<T>(s: seq<T>, i: nat)
    requires i < |s|
    ensures s[..i + 1] == s[..i] + [s[i]]
  {
  }

  /** `List.Remove`: drops the first element equal to `x`, if any. */
  function RemoveFirst<T(==)>(s: seq<T>, x: T): seq<T> {
    if s == [] then []
    else if s[0] == x then s[1..]
    else [s[0]] + RemoveFirst(s[1..], x)
  }

  /** `RemoveFirst` cuts out exactly the first occurrence and keeps the order of
      the rest; without an occurrence it changes nothing. */
  lemma RemoveFirstCutsFirst<T>(s: seq<T>, x: T)
    ensures var i := IndexOf(s, x);
            RemoveFirst(s, x) == if i < |s| then s[..i] + s[i + 1..] else s
  {
    if x in s {
      RemoveFirstPresent(s, x);
    } else {
      RemoveFirstAbsent(s, x);
    }
  }

  /** Without an occurrence, `RemoveFirst` changes nothing. */
  lemma {:induction false} RemoveFirstAbsent<T>(s: seq<T>, x: T)
    requires x !in s
    ensures RemoveFirst(s, x) == s
  {
    if s != [] {
      assert x !in s[1..];
      RemoveFirstAbsent(s[1..], x);
      assert [s[0]] + s[1..] == s;
    }
  }

  /** With an occurrence, `RemoveFirst` cuts out the first one. */
  lemma RemoveFirstPresent<T>(s: seq<T>, x: T)
    requires x in s
    ensures var i := IndexOf(s, x);
            RemoveFirst(s, x) == s[..i] + s[i + 1..]
  {
    IndexOfFirst(s, x);
    RemoveFirstAt(s, x, IndexOf(s, x));
  }

  /** `RemoveFirst` cuts out position `i` when `x` first occurs there. */
  lemma {:induction false} RemoveFirstAt<T>(s: seq<T>, x: T, i: nat)
    requires i < |s| && s[i] == x
    requires forall j :: 0 <= j < i ==> s[j] != x
    ensures RemoveFirst(s, x) == s[..i] + s[i + 1..]
  {
    if i == 0 {
      assert s[..0] + s[1..] == s[1..];
    } else {
      var t := s[1..];
      assert t[i - 1] == x;
      RemoveFirstAt(t, x, i - 1);
      calc {
        RemoveFirst(s, x);
        [s[0]] + RemoveFirst(t, x);
        [s[0]] + (t[..i - 1] + t[i..]);
        { assert t[..i - 1] == s[1..i] && t[i..] == s[i + 1..]; }
        [s[0]] + (s[1..i] + s[i + 1..]);
        { assert [s[0]] + s[1..i] == s[..i]; }
        s[..i] + s[i + 1..];
      }
    }
  }

  /** On a duplicate-free list, removing `x` leaves a duplicate-free list holding
      every other element. */
  lemma RemoveFirstNoDups<T>(s: seq<T>, x: T)
    requires NoDups(s)
    ensures NoDups(RemoveFirst(s, x))
    ensures forall i :: 0 <= i < |RemoveFirst(s, x)| ==> RemoveFirst(s, x)[i] in s && RemoveFirst(s, x)[i] != x
    ensures forall i :: 0 <= i < |s| && s[i] != x ==> s[i] in RemoveFirst(s, x)
  {
    RemoveFirstCutsFirst(s, x);
    var i := IndexOf(s, x);
    if i < |s| {
      assert RemoveFirst(s, x) == Cut(s, i);
      CutPositions(s, i);
      CutNoDups(s, i);
      CutMembers(s, i);
    }
  }

  /** Position in the original list of position `j` once position `i` is cut out. */
  function Skip(i: nat, j: nat): (k: nat)
    ensures k != i && (k < i <==> j < i)
  {
    if j < i then j else j + 1
  }

  /** `s` with position `i` cut out. */
  function Cut<T>(s: seq<T>, i: nat): (r: seq<T>)
    requires i < |s|
    ensures |r| == |s| - 1
  {
    s[..i] + s[i + 1..]
  }

  /** Cutting out position `i` shifts every later element down by one. */
  lemma CutPositions<T>(s: seq<T>, i: nat)
    requires i < |s|
    ensures forall j :: 0 <= j < |s| - 1 ==> Cut(s, i)[j] == s[Skip(i, j)]
  {
    var r := Cut(s, i);
    forall j | 0 <= j < |r| ensures r[j] == s[Skip(i, j)] {
      if j < i { assert r[j] == s[..i][j]; } else { assert r[j] == s[i + 1..][j - i]; }
    }
  }

  /** Cutting a position out of a duplicate-free list keeps it duplicate-free. */
  lemma CutNoDups<T>(s: seq<T>, i: nat)
    requires i < |s| && NoDups(s)
    requires forall j :: 0 <= j < |s| - 1 ==> Cut(s, i)[j] == s[Skip(i, j)]
    ensures NoDups(Cut(s, i))
  {
    var r := Cut(s, i);
    forall a, b | 0 <= a < b < |r| ensures r[a] != r[b] {
      assert Skip(i, a) < Skip(i, b);
    }
  }

  /** Cutting position `i` out of a duplicate-free list removes exactly `s[i]`. */
  lemma CutMembers<T>(s: seq<T>, i: nat)
    requires i < |s| && NoDups(s)
    requires forall j :: 0 <= j < |s| - 1 ==> Cut(s, i)[j] == s[Skip(i, j)]
    ensures forall j :: 0 <= j < |s| - 1 ==> Cut(s, i)[j] in s && Cut(s, i)[j] != s[i]
    ensures forall j :: 0 <= j < |s| && s[j] != s[i] ==> s[j] in Cut(s, i)
  {
    var r := Cut(s, i);
    forall j | 0 <= j < |r| ensures r[j] in s && r[j] != s[i] {
      assert Skip(i, j) != i;
    }
    forall j | 0 <= j < |s| && s[j] != s[i] ensures s[j] in r {
      if j < i { assert r[j] == s[j]; } else { assert r[j - 1] == s[j]; }
    }
  }
}
