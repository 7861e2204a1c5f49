/**
 * Reference counts of received pbufs (pbuf_ref, pbuf_cat and pbuf_free of lwIP, which are not
 * part of this repository) as http_recv and http_parse_request of httpd.c use them.
 */
module PbufRefs {
  import opened Prelude

  datatype Pbuf = Pbuf(id: nat, payload: seq<byte>)

  /** The bytes of a chain. */
  function Content(chain: seq<Pbuf>): (s: seq<byte>) {
    if chain == [] then [] else chain[0].payload + Content(chain[1..])
  }

  function Ids(chain: seq<Pbuf>): (r: set<nat>) {
    set p | p in chain :: p.id
  }

  ghost predicate Distinct(chain: seq<Pbuf>) {
    forall i, j :: 0 <= i < j < |chain| ==> chain[i].id != chain[j].id
  }

  /** pbuf_free: the count of the head goes down, and a pbuf whose count reaches zero takes its
      share in the rest of the chain with it. */
  function Freed(refs: map<nat, nat>, chain: seq<Pbuf>): (r: map<nat, nat>)
    decreases |chain|
  {
    if chain == [] || chain[0].id !in refs then refs
    else if refs[chain[0].id] > 1 then refs[chain[0].id := refs[chain[0].id] - 1]
    else Freed(refs - {chain[0].id}, chain[1..])
  }

  lemma {:induction false} ContentAppend(a: seq<Pbuf>, b: seq<Pbuf>)
    ensures Content(a + b) == Content(a) + Content(b)
  {
    if a == [] {
      assert a + b == b;
    } else {
      assert (a + b)[1..] == a[1..] + b;
      ContentAppend(a[1..], b);
    }
  }

  lemma IdsAppend(a: seq<Pbuf>, b: seq<Pbuf>)
    ensures Ids(a + b) == Ids(a) + Ids(b)
  {
  }

  ghost predicate AllOnce(refs: map<nat, nat>, chain: seq<Pbuf>) {
    forall p :: p in chain ==> p.id in refs && refs[p.id] == 1
  }

  /** The head of a chain of distinct pbufs taken off. */
  lemma Tail(a: seq<Pbuf>, b: seq<Pbuf>)
    requires Distinct(a + b) && a != []
    ensures (a + b)[1..] == a[1..] + b && (a + b)[0] == a[0] && Distinct(a[1..] + b)
    ensures Ids(a) == {a[0].id} + Ids(a[1..])
    ensures forall p :: p in a[1..] ==> p in a && p.id != a[0].id
    ensures b != [] ==> b[0].id != a[0].id
  {
    var c := a + b;
    assert forall i :: 0 <= i < |c| - 1 ==> (a[1..] + b)[i] == c[i + 1];
    forall p | p in a[1..] ensures p in a && p.id != a[0].id {
      var i :| 0 <= i < |a| - 1 && a[1..][i] == p;
      assert a[i + 1] == p == c[i + 1] && a[0] == c[0];
    }
    if b != [] {
      assert b[0] == c[|a|];
    }
    assert a == [a[0]] + a[1..];
    IdsAppend([a[0]], a[1..]);
  }

  /** Freeing goes as far as the first pbuf that someone else holds too. */
  lemma {:induction false} FreedRun(refs: map<nat, nat>, a: seq<Pbuf>, b: seq<Pbuf>)
    requires Distinct(a + b) && AllOnce(refs, a) && (b != [] ==> b[0].id in refs && refs[b[0].id] > 1)
    ensures Freed(refs, a + b) == if b == [] then refs - Ids(a) else (refs - Ids(a))[b[0].id := refs[b[0].id] - 1]
    decreases |a|
  {
    if a == [] {
      assert a + b == b;
      assert refs - Ids(a) == refs;
    } else {
      Tail(a, b);
      hide Distinct;
      assert a[0] in a;
      FreedRun(refs - {a[0].id}, a[1..], b);
      hide Ids;
      assert refs - {a[0].id} - Ids(a[1..]) == refs - Ids(a);
    }
  }

  /** The counts while the request is looked at: the newest chain `p` of the list is held by
      the callback too, and so is the part of the list from `k` on if it goes to the
      application. */
  function Held(refs: map<nat, nat>, chain: seq<Pbuf>, p: nat, k: nat): (r: map<nat, nat>)
    requires p < |chain| && k <= |chain| && AllOnce(refs, chain)
  {
    var r := refs[chain[p].id := 2];
    if k == |chain| then r else r[chain[k].id := r[chain[k].id] + 1]
  }

  lemma SplitAt(chain: seq<Pbuf>, lo: nat, k: nat)
    requires lo <= k <= |chain|
    ensures chain[lo..] == chain[lo..k] + chain[k..]
    ensures Distinct(chain) ==> Distinct(chain[lo..])
    ensures Ids(chain[..k]) == Ids(chain[..lo]) + Ids(chain[lo..k])
  {
    assert chain[..k] == chain[..lo] + chain[lo..k];
    IdsAppend(chain[..lo], chain[lo..k]);
  }

  lemma NotAmong(chain: seq<Pbuf>, lo: nat, k: nat)
    requires Distinct(chain) && lo <= k < |chain|
    ensures chain[k].id !in Ids(chain[..lo])
  {
  }

  lemma BackTwice(refs: map<nat, nat>, gone: set<nat>, k: nat, p: nat)
    requires k !in gone && p !in gone && k != p && k in refs && p in refs && refs[k] == refs[p] == 1
    ensures (refs[p := 2][k := 2] - gone)[k := 1][p := 1] == refs - gone
  {
  }

  /** The application takes the list from a chain before the newest one on. */
  lemma BalancedInside(refs: map<nat, nat>, chain: seq<Pbuf>, p: nat, k: nat)
    requires Distinct(chain) && AllOnce(refs, chain) && k < p < |chain|
    ensures Freed(Freed(Held(refs, chain, p, k), chain), chain[p..]) == refs - Ids(chain[..k])
  {
    hide AllOnce, Distinct, Ids;
    var h := Held(refs, chain, p, k);
    OthersOnce(refs, chain, p, k, 0, k);
    SplitAt(chain, 0, k);
    InAll(refs, chain, k);
    InAll(refs, chain, p);
    FreedRun(h, chain[..k], chain[k..]);
    NotAmong(chain, k, k);
    NotAmong(chain, k, p);
    BackTwice(refs, Ids(chain[..k]), chain[k].id, chain[p].id);
  }

  lemma InAll(refs: map<nat, nat>, chain: seq<Pbuf>, k: nat)
    requires AllOnce(refs, chain) && k < |chain|
    ensures chain[k].id in refs && refs[chain[k].id] == 1
  {
  }

  /** Away from the two places the counts are one. */
  lemma OthersOnce(refs: map<nat, nat>, chain: seq<Pbuf>, p: nat, k: nat, lo: nat, hi: nat)
    requires Distinct(chain) && AllOnce(refs, chain) && p < |chain| && k <= |chain| && lo <= hi <= |chain|
    requires !(lo <= p < hi) && !(lo <= k < hi)
    ensures AllOnce(Held(refs, chain, p, k), chain[lo..hi]) && chain[0..] == chain && chain[0..hi] == chain[..hi]
    ensures k < |chain| && k != p ==> chain[k].id != chain[p].id
    ensures k < |chain| ==> chain[k..] != [] && chain[k..][0] == chain[k]
    ensures chain[p..] != [] && chain[p..][0] == chain[p]
  {
    var h := Held(refs, chain, p, k);
    forall q | q in chain[lo..hi] ensures q.id in h && h[q.id] == 1 {
      var i :| 0 <= i < hi - lo && chain[lo..hi][i] == q;
      assert q == chain[lo + i];
    }
  }

  /** Freeing the list up to the newest chain. */
  lemma FreedToNewest(refs: map<nat, nat>, chain: seq<Pbuf>, p: nat, k: nat)
    requires Distinct(chain) && AllOnce(refs, chain) && p < |chain| && p <= k <= |chain|
    ensures var h := Freed(Held(refs, chain, p, k), chain);
      h == if k == |chain| then refs - Ids(chain[..p]) else (refs - Ids(chain[..p]))[chain[k].id := 2]
  {
    hide AllOnce, Distinct, Ids;
    var h := Held(refs, chain, p, k);
    OthersOnce(refs, chain, p, k, 0, p);
    SplitAt(chain, 0, p);
    FreedRun(h, chain[..p], chain[p..]);
    NotAmong(chain, p, p);
    InAll(refs, chain, p);
    if k < |chain| {
      NotAmong(chain, p, k);
      InAll(refs, chain, k);
    }
  }

  lemma MiddleOnce(refs: map<nat, nat>, h: map<nat, nat>, chain: seq<Pbuf>, p: nat, k: nat)
    requires Distinct(chain) && AllOnce(refs, chain) && p <= k <= |chain|
    requires h == if k == |chain| then refs - Ids(chain[..p]) else (refs - Ids(chain[..p]))[chain[k].id := 2]
    ensures AllOnce(h, chain[p..k])
  {
    hide Ids;
    forall q | q in chain[p..k] ensures q.id in h && h[q.id] == 1 {
      var i :| 0 <= i < k - p && chain[p..k][i] == q;
      assert q == chain[p + i];
      NotAmong(chain, p, p + i);
    }
  }

  lemma BalancedBeyond(refs: map<nat, nat>, chain: seq<Pbuf>, p: nat, k: nat)
    requires Distinct(chain) && AllOnce(refs, chain) && p < |chain| && p <= k <= |chain|
    ensures Freed(Freed(Held(refs, chain, p, k), chain), chain[p..]) == refs - Ids(chain[..k])
  {
    FreedToNewest(refs, chain, p, k);
    var gone := Ids(chain[..p]);
    var h := Freed(Held(refs, chain, p, k), chain);
    SplitAt(chain, p, k);
    hide AllOnce, Distinct, Ids, Held, Freed;
    MiddleOnce(refs, h, chain, p, k);
    var a, b := chain[p..k], chain[k..];
    if k < |chain| {
      assert b[0] == chain[k];
      NotAmong(chain, k, k);
      InAll(refs, chain, k);
      BackOnce(refs, gone, Ids(a), b[0].id);
    } else {
      TwoGone(refs, gone, Ids(a));
      assert b == [];
    }
    FreedRun(h, a, b);
  }

  lemma BackOnce(refs: map<nat, nat>, g: set<nat>, m: set<nat>, k: nat)
    requires k !in g + m && k in refs && refs[k] == 1
    ensures ((refs - g)[k := 2] - m)[k := 1] == refs - (g + m)
  {
  }

  lemma TwoGone(refs: map<nat, nat>, g: set<nat>, m: set<nat>)
    ensures refs - g - m == refs - (g + m)
  {
  }

  /** Freeing the list and then the newest chain leaves nothing held twice and nothing behind:
      exactly the pbufs from `k` on remain, once each. */
  lemma Balanced(refs: map<nat, nat>, chain: seq<Pbuf>, p: nat, k: nat)
    requires Distinct(chain) && AllOnce(refs, chain) && p < |chain| && k <= |chain|
    ensures Freed(Freed(Held(refs, chain, p, k), chain), chain[p..]) == refs - Ids(chain[..k])
  {
    if k < p {
      BalancedInside(refs, chain, p, k);
    } else {
      BalancedBeyond(refs, chain, p, k);
    }
  }
}
