/** Sequences put together from parts. */
module Parts {

  function Flatten<T>(parts: seq<seq<T>>): seq<T> {
    if parts == [] then [] else parts[0] + Flatten(parts[1..])
  }

  /** f(at) + f(at + 1) + ... up to `end`. */
  function Gather<T>(f: nat -> seq<T>, at: nat, end: nat): seq<T>
    decreases end - at
  {
    if at >= end then [] else f(at) + Gather(f, at + 1, end)
  }

  lemma Regroup<T>(all: seq<T>, a: seq<T>, b: seq<T>, rest: seq<T>)
    requires all == a + (b + rest)
    ensures all == (a + b) + rest
    ensures b == [] ==> all == a + rest
  {
  }

  lemma NothingLeft<T>(all: seq<T>, a: seq<T>, b: seq<T>)
    requires all == a + b && b == []
    ensures all == a
  {
  }

  lemma NothingDone<T>(all: seq<T>)
    ensures all == [] + all
  {
  }

  lemma Tail<T>(s: seq<T>, n: nat)
    requires n < |s|
    ensures s[n..] != [] && s[n..][0] == s[n] && s[n..][1..] == s[n + 1..]
  {
  }

  lemma Whole<T>(s: seq<T>)
    ensures s[0..] == s && s[..|s|] == s && s[|s|..] == []
  {
  }

  lemma Middle<T>(a: seq<T>, b: seq<T>, c: seq<T>, d: seq<T>, e: seq<T>, f: seq<T>)
    ensures (a + (b + c + d) + e + f)[|a| + |b|..|a| + |b| + |c|] == c
  {
    assert a + (b + c + d) + e + f == (a + b) + c + (d + e + f);
  }

  lemma Assoc<T>(a: seq<T>, b: seq<T>, c: seq<T>)
    ensures a + b + c == a + (b + c)
  {
  }

  lemma NothingAfter<T>(a: seq<T>)
    ensures a + [] == a
  {
  }

  lemma Prefix<T>(s: seq<T>, j: nat, k: nat)
    requires j < k <= |s|
    ensures s[..k][..j] == s[..j] && s[..k][j] == s[j]
  {
  }

  lemma FlattenFrom<T>(parts: seq<seq<T>>, n: nat)
    requires n < |parts|
    ensures Flatten(parts[n..]) == parts[n] + Flatten(parts[n + 1..])
  {
    Tail(parts, n);
  }

  /** A loop over the parts has done those before n. */
  lemma FlattenNext<T>(parts: seq<seq<T>>, n: nat, done: seq<T>)
    requires n < |parts| && Flatten(parts) == done + Flatten(parts[n..])
    ensures Flatten(parts) == (done + parts[n]) + Flatten(parts[n + 1..])
    ensures parts[n] == [] ==> Flatten(parts) == done + Flatten(parts[n + 1..])
  {
    FlattenFrom(parts, n);
    Regroup(Flatten(parts), done, parts[n], Flatten(parts[n + 1..]));
  }

  lemma FlattenStart<T>(parts: seq<seq<T>>)
    ensures Flatten(parts) == [] + Flatten(parts[0..])
  {
    Whole(parts);
    NothingDone(Flatten(parts));
  }

  lemma {:induction false} GatherJoins<T>(f: nat -> seq<T>, at: nat, mid: nat, end: nat)
    requires at <= mid <= end
    ensures Gather(f, at, mid) + Gather(f, mid, end) == Gather(f, at, end)
    decreases mid - at
  {
    if at < mid {
      GatherJoins(f, at + 1, mid, end);
      Regroup(Gather(f, at, end), f(at), Gather(f, at + 1, mid), Gather(f, mid, end));
    }
  }

  /** Parts that are f of consecutive numbers. */
  lemma {:induction false} FlattenIsGather<T>(f: nat -> seq<T>, at: nat, parts: seq<seq<T>>)
    requires forall j :: 0 <= j < |parts| ==> parts[j] == f(at + j)
    ensures Flatten(parts) == Gather(f, at, at + |parts|)
    decreases |parts|
  {
    if parts != [] {
      assert parts[0] == f(at + 0);
      forall j | 0 <= j < |parts[1..]| ensures parts[1..][j] == f(at + 1 + j) {
        assert parts[j + 1] == f(at + (j + 1));
      }
      FlattenIsGather(f, at + 1, parts[1..]);
    }
  }
}
