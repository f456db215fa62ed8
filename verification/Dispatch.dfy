/** The cold list of cached intervals and the queues of the flushing workers: dispatching
    the oldest intervals to the queues, round robin, until the cache is small enough. */
module Dispatch {

  // -------------------------------------------------------- power-of-two masks

  /** Bitwise conjunction. */
  function BitAnd(a: nat, b: nat): nat {
    if a == 0 || b == 0 then 0 else a % 2 * (b % 2) + 2 * BitAnd(a / 2, b / 2)
  }

  function Pow2(n: nat): (p: nat)
    ensures p > 0
  {
    if n == 0 then 1 else 2 * Pow2(n - 1)
  }

  /** Masking with a power of two less one is the remainder. */
  lemma {:induction false} MaskIsModulo(a: nat, n: nat)
    ensures BitAnd(a, Pow2(n) - 1) == a % Pow2(n)
  {
    if n > 0 {
      MaskIsModulo(a / 2, n - 1);
      MaskStep(a, Pow2(n - 1));
    }
  }

  lemma MaskStep(a: nat, p: nat)
    requires p > 0 && BitAnd(a / 2, p - 1) == a / 2 % p
    ensures BitAnd(a, 2 * p - 1) == a % (2 * p)
  {
    hide BitAnd;
    var h := a / 2;
    var k, r := Halves(h, p);
    MaskBit(a, p);
    Doubled(a, h, p, k, r);
    DivMod(a, 2 * p, k, a % 2 + 2 * r);
  }

  lemma MaskBit(a: nat, p: nat)
    requires p > 0
    ensures BitAnd(a, 2 * p - 1) == a % 2 + 2 * BitAnd(a / 2, p - 1)
  {
    assert (2 * p - 1) / 2 == p - 1 && (2 * p - 1) % 2 == 1;
  }

  lemma Halves(h: nat, p: nat) returns (k: nat, r: nat)
    requires p > 0
    ensures h == p * k + r && k == h / p && r == h % p && r < p
  {
    k, r := h / p, h % p;
  }

  lemma Doubled(a: nat, h: nat, p: nat, k: nat, r: nat)
    requires h == a / 2 && h == p * k + r && r < p
    ensures a == (2 * p) * k + (a % 2 + 2 * r) && a % 2 + 2 * r < 2 * p
  {
    assert (2 * p) * k == 2 * (p * k);
  }

  lemma DivMod(a: nat, m: nat, q: nat, r: nat)
    requires m > 0 && a == m * q + r && r < m
    ensures a / m == q && a % m == r
  {
    var q', r' := a / m, a % m;
    assert a == m * q' + r';
    if q' > q {
      MulGap(m, q, q');
      assert false;
    } else if q' < q {
      MulGap(m, q', q);
      assert false;
    }
  }

  lemma MulGap(m: nat, q: nat, q': nat)
    requires q < q'
    ensures m * q' >= m * q + m
  {
    var d: nat := q' - q - 1;
    assert m * (q + 1 + d) == m * q + m + m * d;
  }

  // ------------------------------------------------------------------- shares

  /** The entries of `s` that are not removed, in order. */
  function Live(s: seq<nat>, removed: set<nat>): seq<nat> {
    if s == [] then [] else
      Live(s[..|s| - 1], removed) + if s[|s| - 1] in removed then [] else [s[|s| - 1]]
  }

  /** The entries of `s` that are removed, in order. */
  function Dead(s: seq<nat>, removed: set<nat>): seq<nat> {
    if s == [] then [] else
      Dead(s[..|s| - 1], removed) + if s[|s| - 1] in removed then [s[|s| - 1]] else []
  }

  /** Every entry of `s` at a position that is `q` modulo `nr`, in order. */
  function Share(s: seq<nat>, q: nat, nr: nat): seq<nat>
    requires nr > 0
  {
    if s == [] then [] else
      Share(s[..|s| - 1], q, nr) + if (|s| - 1) % nr == q then [s[|s| - 1]] else []
  }

  /** Dealing in turn gives each queue its part, the first ones perhaps one more than the others. */
  lemma {:induction false} EvenShares(s: seq<nat>, q: nat, nr: nat)
    requires q < nr
    ensures |Share(s, q, nr)| == |s| / nr + if q < |s| % nr then 1 else 0
  {
    if s != [] {
      EvenShares(s[..|s| - 1], q, nr);
      NextQuotient(|s| - 1, nr);
    }
  }

  /** The share of queue `q`: the entries `q`, `q + nr`, `q + 2 * nr` and so on. */
  lemma {:induction false} ShareAt(s: seq<nat>, q: nat, nr: nat, i: nat)
    requires q < nr && i < |Share(s, q, nr)|
    ensures q + i * nr < |s| && Share(s, q, nr)[i] == s[q + i * nr]
  {
    var last := |s| - 1;
    var before := Share(s[..last], q, nr);
    if i < |before| {
      ShareAt(s[..last], q, nr, i);
    } else {
      EvenShares(s[..last], q, nr);
      assert last == nr * (last / nr) + last % nr;
      assert i == last / nr;
    }
  }

  lemma NextQuotient(a: nat, m: nat)
    requires m > 0
    ensures if a % m == m - 1 then (a + 1) / m == a / m + 1 && (a + 1) % m == 0
            else (a + 1) / m == a / m && (a + 1) % m == a % m + 1
  {
    var q, r := a / m, a % m;
    assert a == m * q + r;
    if r == m - 1 {
      assert a + 1 == m * (q + 1) + 0;
      DivMod(a + 1, m, q + 1, 0);
    } else {
      DivMod(a + 1, m, q, r + 1);
    }
  }

  /** Live entries are picked out one by one, in order. */
  lemma {:induction false} LiveParts(a: seq<nat>, b: seq<nat>, removed: set<nat>)
    ensures Live(a + b, removed) == Live(a, removed) + Live(b, removed)
  {
    if b == [] {
      assert a + b == a;
    } else {
      LiveParts(a, b[..|b| - 1], removed);
      assert (a + b)[..|a + b| - 1] == a + b[..|b| - 1];
    }
  }

  /** And so are dead ones. */
  lemma {:induction false} DeadParts(a: seq<nat>, b: seq<nat>, removed: set<nat>)
    ensures Dead(a + b, removed) == Dead(a, removed) + Dead(b, removed)
  {
    if b == [] {
      assert a + b == a;
    } else {
      DeadParts(a, b[..|b| - 1], removed);
      assert (a + b)[..|a + b| - 1] == a + b[..|b| - 1];
    }
  }

  /** Sizes are added up. */
  lemma {:induction false} SumParts(a: seq<nat>, b: seq<nat>, size: nat -> nat)
    ensures Sum(a + b, size) == Sum(a, size) + Sum(b, size)
  {
    if b == [] {
      assert a + b == a;
    } else {
      SumParts(a, b[..|b| - 1], size);
      assert (a + b)[..|a + b| - 1] == a + b[..|b| - 1];
    }
  }

  lemma ListOne(x: nat, removed: set<nat>, size: nat -> nat)
    ensures Live([x], removed) == (if x in removed then [] else [x])
    ensures Dead([x], removed) == (if x in removed then [x] else []) && Sum([x], size) == size(x)
  {
    assert [x][..0] == [];
  }

  lemma LiveNext(s: seq<nat>, i: nat, removed: set<nat>)
    requires i < |s|
    ensures Live(s[..i + 1], removed) == Live(s[..i], removed) + if s[i] in removed then [] else [s[i]]
    ensures Dead(s[..i + 1], removed) ==
      if s[i] in removed then Dead(s[..i], removed) + [s[i]] else Dead(s[..i], removed)
  {
    assert s[..i + 1][..i] == s[..i];
  }

  lemma SumNext(s: seq<nat>, x: nat, size: nat -> nat)
    ensures Sum(s + [x], size) == Sum(s, size) + size(x) && (s + [x])[..|s + [x]| - 1] == s
  {
    assert (s + [x])[..|s|] == s;
  }

  lemma Nothing(removed: set<nat>, size: nat -> nat)
    ensures Live([], removed) == [] && Dead([], removed) == [] && Sum([], size) == 0
  {
  }

  /** The queues have each received their share of `moved`. */
  ghost predicate Dealt(queues0: seq<seq<nat>>, queues: seq<seq<nat>>, moved: seq<nat>) {
    |queues| == |queues0| && forall q :: 0 <= q < |queues| ==> queues[q] == queues0[q] + Share(moved, q, |queues|)
  }

  lemma DealtNone(queues: seq<seq<nat>>)
    ensures Dealt(queues, queues, [])
  {
  }

  lemma DealtStep(queues0: seq<seq<nat>>, queues: seq<seq<nat>>, moved: seq<nat>, x: nat, q: nat)
    requires Dealt(queues0, queues, moved) && q < |queues| && q == |moved| % |queues|
    ensures Dealt(queues0, queues[q := queues[q] + [x]], moved + [x])
  {
    assert (moved + [x])[..|moved|] == moved;
  }

  function Sum(s: seq<nat>, size: nat -> nat): nat {
    if s == [] then 0 else Sum(s[..|s| - 1], size) + size(s[|s| - 1])
  }

  // -------------------------------------------------------------------- lists

  /** The multiset of all entries of the queues. */
  ghost function All(queues: seq<seq<nat>>): multiset<nat> {
    if queues == [] then multiset{} else multiset(queues[0]) + All(queues[1..])
  }

  lemma {:induction false} AllPush(queues: seq<seq<nat>>, q: nat, x: nat)
    requires q < |queues|
    ensures All(queues[q := queues[q] + [x]]) == All(queues) + multiset{x}
  {
    var queues' := queues[q := queues[q] + [x]];
    if q > 0 {
      AllPush(queues[1..], q - 1, x);
      assert queues'[1..] == queues[1..][q - 1 := queues[q] + [x]];
    } else {
      assert queues'[1..] == queues[1..];
    }
  }

  /** The entries still linked and the dead ones dropped make up `total`. */
  ghost predicate Accounts(total: multiset<nat>, cold: seq<nat>, queues: seq<seq<nat>>, dead: seq<nat>) {
    total == multiset(cold) + All(queues) + multiset(dead)
  }

  lemma AccountsAre(total: multiset<nat>, cold: seq<nat>, queues: seq<seq<nat>>, dead: seq<nat>)
    ensures Accounts(total, cold, queues, dead) <==> total == multiset(cold) + All(queues) + multiset(dead)
  {
  }

  lemma AccountsDrop(total: multiset<nat>, cold: seq<nat>, queues: seq<seq<nat>>, dead: seq<nat>)
    requires Accounts(total, cold, queues, dead) && cold != []
    ensures Accounts(total, cold[1..], queues, dead + [cold[0]])
  {
    assert cold == [cold[0]] + cold[1..];
  }

  lemma AccountsMove(total: multiset<nat>, cold: seq<nat>, queues: seq<seq<nat>>, dead: seq<nat>, q: nat)
    requires Accounts(total, cold, queues, dead) && cold != [] && q < |queues|
    ensures Accounts(total, cold[1..], queues[q := queues[q] + [cold[0]]], dead)
  {
    assert cold == [cold[0]] + cold[1..];
    AllPush(queues, q, cold[0]);
  }

  lemma {:induction false} AllPop(queues: seq<seq<nat>>, q: nat)
    requires q < |queues| && queues[q] != []
    ensures All(queues) == All(queues[q := queues[q][1..]]) + multiset{queues[q][0]}
  {
    var queues' := queues[q := queues[q][1..]];
    if q > 0 {
      AllPop(queues[1..], q - 1);
      assert queues'[1..] == queues[1..][q - 1 := queues[q][1..]];
    } else {
      assert queues'[1..] == queues[1..];
      assert queues[0] == [queues[0][0]] + queues[0][1..];
    }
  }

  lemma {:induction false} AllEmpty(queues: seq<seq<nat>>)
    requires forall q :: 0 <= q < |queues| ==> queues[q] == []
    ensures All(queues) == multiset{}
  {
    if queues != [] {
      AllEmpty(queues[1..]);
    }
  }

  /** `s` without the entry `k`. */
  function Drop(s: seq<nat>, k: nat): seq<nat> {
    if s == [] then [] else (if s[0] == k then [] else [s[0]]) + Drop(s[1..], k)
  }

  lemma {:induction false} DropAll(s: seq<nat>, k: nat)
    ensures multiset(Drop(s, k)) == multiset(s)[k := 0]
  {
    if s != [] {
      DropAll(s[1..], k);
      assert s == [s[0]] + s[1..];
    }
  }

  function DropEach(queues: seq<seq<nat>>, k: nat): (r: seq<seq<nat>>)
    ensures |r| == |queues|
  {
    if queues == [] then [] else [Drop(queues[0], k)] + DropEach(queues[1..], k)
  }

  lemma {:induction false} DropQueues(queues: seq<seq<nat>>, k: nat)
    ensures All(DropEach(queues, k)) == All(queues)[k := 0]
  {
    if queues != [] {
      DropAll(queues[0], k);
      DropQueues(queues[1..], k);
      assert DropEach(queues, k)[1..] == DropEach(queues[1..], k);
    }
  }

  /** The first `seen` cold entries are gone: the dead ones dropped, the live ones, `moved`, dealt to the queues.
      They are just enough to bring what is left of `total` below `low`, or else all there were. */
  ghost predicate Dispatched(cold: seq<nat>, queues: seq<seq<nat>>, cold': seq<nat>, queues': seq<seq<nat>>,
                             removed: set<nat>, size: nat -> nat, total: nat, low: nat,
                             left: int, seen: nat, moved: seq<nat>) {
    && seen <= |cold| && cold' == cold[seen..] && moved == Live(cold[..seen], removed)
    && Dealt(queues, queues', moved)
    && left == total - Sum(moved, size)
    && (left < low ==> moved != [] && total - Sum(moved[..|moved| - 1], size) >= low)
    && (left < low ==> seen > 0 && cold[seen - 1] !in removed)
    && (left >= low ==> seen == |cold|)
  }

  lemma {:induction false} NoneDead(s: seq<nat>)
    ensures Dead(s, {}) == [] && Live(s, {}) == s
  {
    if s != [] {
      NoneDead(s[..|s| - 1]);
    }
  }

  class Lists {
    var cold: seq<nat>
    var queues: seq<seq<nat>>
    /** There are Pow2(bits) queues. */
    const bits: nat

    ghost predicate Valid()
      reads this
    {
      |queues| == Pow2(bits)
    }

    /** How often each entry is linked. */
    ghost function Linked(): multiset<nat>
      reads this
    {
      multiset(cold) + All(queues)
    }

    constructor (n: nat)
      ensures Valid() && Linked() == multiset{} && bits == n
    {
      bits := n;
      cold, queues := [], seq(Pow2(n), i => []);
      new;
      AllEmpty(queues);
    }

    method AddCold(k: nat)
      requires Valid()
      modifies this`cold
      ensures Valid() && cold == old(cold) + [k] && Linked() == old(Linked()) + multiset{k}
    {
      cold := cold + [k];
    }

    /** Takes the first entry of queue `q`. */
    method Pop(q: nat) returns (k: nat)
      requires Valid() && q < |queues| && queues[q] != []
      modifies this`queues
      ensures Valid() && k == old(queues)[q][0] && queues == old(queues)[q := old(queues)[q][1..]]
      ensures old(Linked()) == Linked() + multiset{k}
    {
      AllPop(queues, q);
      k := queues[q][0];
      queues := queues[q := queues[q][1..]];
    }

    /** Unlinks `k` wherever it is. */
    method Unlink(k: nat)
      requires Valid()
      modifies this
      ensures Valid() && Linked() == old(Linked())[k := 0]
    {
      DropAll(cold, k);
      DropQueues(queues, k);
      cold, queues := Drop(cold, k), DropEach(queues, k);
    }

    /** Appends `k`, which has just left the cold list, to the queue whose turn it is after `moved` entries. */
    method Deal(k: nat, rr: nat, ghost queues0: seq<seq<nat>>, ghost moved: seq<nat>,
                ghost total: multiset<nat>, ghost was: seq<nat>, ghost dead: seq<nat>)
      requires Valid() && Dealt(queues0, queues, moved) && rr == |moved|
      requires was != [] && k == was[0] && cold == was[1..] && Accounts(total, was, queues, dead)
      modifies this`queues
      ensures Valid() && Dealt(queues0, queues, moved + [k]) && Accounts(total, cold, queues, dead)
    {
      hide Dealt, BitAnd, All, Accounts;
      var queueId := BitAnd(rr, |queues| - 1);
      MaskIsModulo(rr, bits);
      DealtStep(queues0, queues, moved, k, queueId);
      AccountsMove(total, was, queues, dead, queueId);
      queues := queues[queueId := queues[queueId] + [k]];
    }

    /** Moves live entries from the cold list to the queues, oldest first, until what is left of `total` is below
        `low` or the list ends. Entries of removed files are dropped. */
    method Dispatch(removed: set<nat>, size: nat -> nat, total: nat, low: nat, ghost high: nat)
      returns (left: nat, ghost seen: nat, ghost moved: seq<nat>)
      requires Valid() && low <= high < total
      requires forall k :: size(k) <= low
      modifies this
      ensures Valid() && Dispatched(old(cold), old(queues), cold, queues, removed, size, total, low, left, seen, moved)
      ensures old(Linked()) == Linked() + multiset(Dead(old(cold)[..seen], removed))
    {
      hide Dealt, BitAnd, All, Live, Dead, Sum, Accounts, Pow2;
      Nothing(removed, size);
      left, seen, moved := total, 0, [];
      DealtNone(queues);
      AccountsAre(old(Linked()), cold, queues, []);
      var rr := 0;
      ghost var cold0, queues0 := cold, queues;
      while cold != []
        invariant Valid() && seen <= |cold0| && cold == cold0[seen..] && moved == Live(cold0[..seen], removed)
        invariant rr == |moved| && left == total - Sum(moved, size) >= low
        invariant Dealt(queues0, queues, moved)
        invariant Accounts(old(Linked()), cold, queues, Dead(cold0[..seen], removed))
        decreases |cold|
      {
        var victim := cold[0];
        ghost var was, dead := cold, Dead(cold0[..seen], removed);
        cold, seen := cold[1..], seen + 1;
        LiveNext(cold0, seen - 1, removed);
        if victim in removed {
          AccountsDrop(old(Linked()), was, queues, dead);
          continue;
        }
        Deal(victim, rr, queues0, moved, old(Linked()), was, dead);
        rr := rr + 1;
        SumNext(moved, victim, size);
        moved := moved + [victim];
        left := left - size(victim);
        if left < low {
          break;
        }
      }
      AccountsAre(old(Linked()), cold, queues, Dead(cold0[..seen], removed));
    }
  }
}
