/** The list of resources with the backtraces they share (src/resources/list/mut_resources.c).
    Each resource may hold the backtrace of its producer and of its consumer; a backtrace counts
    the fields that hold it. */
module ResourceLists {
  import opened Words
  import opened Ledger
  import opened Backtraces

  datatype Resource = Resource(entry: Entry, producerBt: Backtrace?, consumerBt: Backtrace?)

  function Entries(rs: seq<Resource>): (es: seq<Entry>)
    ensures |es| == |rs| && forall i :: 0 <= i < |rs| ==> es[i] == rs[i].entry
  {
    seq(|rs|, i requires 0 <= i < |rs| => rs[i].entry)
  }

  /** How many fields of one resource hold a backtrace. */
  ghost function Holds(r: Resource, bt: Backtrace): nat {
    (if r.producerBt == bt then 1 else 0) + (if r.consumerBt == bt then 1 else 0)
  }

  /** How many fields of a list hold it. */
  ghost function Refs(rs: seq<Resource>, bt: Backtrace): nat {
    if rs == [] then 0 else Holds(rs[0], bt) + Refs(rs[1..], bt)
  }

  lemma {:induction false} RefsConcat(xs: seq<Resource>, ys: seq<Resource>, bt: Backtrace)
    ensures Refs(xs + ys, bt) == Refs(xs, bt) + Refs(ys, bt)
  {
    if xs == [] {
      assert xs + ys == ys;
    } else {
      assert (xs + ys)[1..] == xs[1..] + ys;
      RefsConcat(xs[1..], ys, bt);
    }
  }

  lemma RefsAround(rs: seq<Resource>, i: nat, r: Resource, bt: Backtrace)
    requires i < |rs|
    ensures Refs(rs[i := r], bt) == Refs(rs, bt) - Holds(rs[i], bt) + Holds(r, bt)
    ensures Refs(rs[..i] + rs[i + 1..], bt) == Refs(rs, bt) - Holds(rs[i], bt)
  {
    RefsSplit(rs, i, bt);
    RefsSplit(rs[i := r], i, bt);
    assert rs[i := r][..i] == rs[..i] && rs[i := r][i + 1..] == rs[i + 1..];
    RefsConcat(rs[..i], rs[i + 1..], bt);
  }

  lemma RefsSplit(rs: seq<Resource>, i: nat, bt: Backtrace)
    requires i < |rs|
    ensures Refs(rs, bt) == Refs(rs[..i], bt) + Holds(rs[i], bt) + Refs(rs[i + 1..], bt)
  {
    assert rs == rs[..i] + ([rs[i]] + rs[i + 1..]);
    RefsConcat(rs[..i], [rs[i]] + rs[i + 1..], bt);
    assert ([rs[i]] + rs[i + 1..])[1..] == rs[i + 1..];
  }

  lemma {:induction false} RefsNone(rs: seq<Resource>, bt: Backtrace)
    requires forall i :: 0 <= i < |rs| ==> rs[i].producerBt != bt && rs[i].consumerBt != bt
    ensures Refs(rs, bt) == 0
  {
    if rs != [] {
      RefsNone(rs[1..], bt);
    }
  }

  lemma {:induction false} RefsSome(rs: seq<Resource>, i: nat, bt: Backtrace)
    requires i < |rs| && (rs[i].producerBt == bt || rs[i].consumerBt == bt)
    ensures Refs(rs, bt) >= 1
  {
    RefsSplit(rs, i, bt);
  }

  /** A live resource that is removed gives up its producer's backtrace. */
  lemma RefsRemoved(rs: seq<Resource>, i: nat, owned: set<Backtrace>)
    requires i < |rs| && rs[i].consumerBt == null
    ensures forall bt :: bt in owned ==>
              Refs(rs[..i] + rs[i + 1..], bt) == Refs(rs, bt) - (if bt == rs[i].producerBt then 1 else 0)
  {
    forall bt | bt in owned
      ensures Refs(rs[..i] + rs[i + 1..], bt) == Refs(rs, bt) - (if bt == rs[i].producerBt then 1 else 0)
    {
      RefsAround(rs, i, rs[i], bt);
    }
  }

  /** The backtraces of a resource are in use, and only a consumed one has its consumer's. */
  ghost predicate Holder(r: Resource, owned: set<Backtrace>) {
    && (r.producerBt != null ==> r.producerBt in owned)
    && (r.consumerBt != null ==> r.consumerBt in owned)
    && (r.entry.consumer.None? ==> r.consumerBt == null)
  }

  lemma HoldersRemoved(rs: seq<Resource>, i: nat, owned: set<Backtrace>)
    requires i < |rs| && forall k :: 0 <= k < |rs| ==> Holder(rs[k], owned)
    ensures var left := rs[..i] + rs[i + 1..]; forall k :: 0 <= k < |left| ==> Holder(left[k], owned)
  {
    hide Holder;
  }

  /** Where the list is read up to. */
  lemma RefsFrom(rs: seq<Resource>, i: nat)
    requires i <= |rs|
    ensures forall bt: Backtrace ::
              Refs(rs[i..], bt) == if i < |rs| then Holds(rs[i], bt) + Refs(rs[i + 1..], bt) else 0
  {
    if i < |rs| {
      assert rs[i..][0] == rs[i] && rs[i..][1..] == rs[i + 1..];
    }
  }

  /** Where an iterator stands: entries still to be looked at, and whether consumed ones count. */
  datatype Iter = Iter(pos: nat, all: bool)

  function Remaining(es: seq<Entry>, it: Iter): seq<Entry> {
    if it.pos > |es| then [] else if it.all then es[it.pos..] else Live(es[it.pos..])
  }

  class Resources {
    const reallyFree: bool
    var elems: seq<Resource>
    var nActive: nat
    var nConsumed: nat
    /** Every backtrace that is in use, and the one a handler holds outside the list. */
    ghost var owned: set<Backtrace>
    ghost var held: Backtrace?
    /** The tracker itself has run out of memory. */
    ghost var full: bool

    /** Backtraces are counted right: one share for every field that holds one, and one for the handler. */
    ghost predicate Accounts()
      reads this, owned
    {
      && (held != null ==> held in owned)
      && (forall i :: 0 <= i < |elems| ==> Holder(elems[i], owned))
      && (forall bt :: bt in owned ==>
            bt.Usable() && bt.refCount == Refs(elems, bt) + (if bt == held then 1 else 0))
    }

    constructor (reallyFree: bool)
      ensures Accounts() && elems == [] && nActive == 0 && nConsumed == 0 && held == null
      ensures owned == {} && !full && this.reallyFree == reallyFree
    {
      this.reallyFree := reallyFree;
      elems, nActive, nConsumed := [], 0, 0;
      owned, held, full := {}, null, false;
    }

    /** The handler starts with a backtrace of its own. */
    ghost method Adopt(bt: Backtrace)
      requires Accounts() && held == null && bt !in owned && bt.Usable() && bt.refCount == 1
      modifies this`owned, this`held
      ensures Accounts() && held == bt && owned == old(owned) + {bt}
    {
      RefsNone(elems, bt);
      owned, held := owned + {bt}, bt;
    }

    /** The handler gives its backtrace up. */
    method CloseHeld(bt: Backtrace)
      requires Accounts() && held == bt
      modifies this`owned, this`held, bt`refCount, bt`freed
      ensures Accounts() && held == null && owned <= old(owned)
    {
      bt.Close();
      held := null;
      if bt.freed {
        owned := owned - {bt};
        forall i | 0 <= i < |elems|
          ensures elems[i].producerBt != bt && elems[i].consumerBt != bt
        {
          if elems[i].producerBt == bt || elems[i].consumerBt == bt {
            RefsSome(elems, i, bt);
          }
        }
      }
    }

    method Lookup(a: Word) returns (i: nat)
      ensures i == Find(Entries(elems), a)
    {
      i := 0;
      while i < |elems|
        invariant i <= |elems|
        invariant forall j :: 0 <= j < i ==> elems[j].entry.addr != a
      {
        if elems[i].entry.addr == a {
          return;
        }
        i := i + 1;
      }
    }

    /** Finds the resource at an address or enters a new one, whose other fields are not set yet. */
    method CreateResource(a: Word) returns (ok: bool, i: nat)
      requires Accounts()
      modifies this`elems, this`nActive, this`full
      ensures Accounts() && full == (old(full) || !ok)
      ensures !ok ==> Find(Entries(elems), a) == |elems| && elems == old(elems) && nActive == old(nActive)
      ensures ok && Find(Entries(old(elems)), a) < |old(elems)| ==>
                i == Find(Entries(old(elems)), a) && elems == old(elems) && nActive == old(nActive)
      ensures ok && Find(Entries(old(elems)), a) == |old(elems)| ==>
                && i == 0 && |elems| == 1 + |old(elems)| && elems[1..] == old(elems) && nActive == old(nActive) + 1
                && elems[0].entry.addr == a && elems[0].entry.consumer.None?
                && elems[0].producerBt == null && elems[0].consumerBt == null
    {
      i := Lookup(a);
      if i < |elems| {
        return true, i;
      }
      var memFull: bool := *;
      if memFull {
        full := true;
        return false, 0;
      }
      var size: Word := *;
      var who: Action := *;
      var r := Resource(Entry(a, size, who, None), null, null);
      assert forall bt: Backtrace :: Refs([r] + elems, bt) == Refs(elems, bt) by {
        assert ([r] + elems)[1..] == elems;
      }
      elems, nActive := [r] + elems, nActive + 1;
      return true, 0;
    }

    /** Marks a resource as produced; it takes over the handler's backtrace. */
    method MakeProducer(i: nat, who: Action, size: Word, bt: Backtrace?)
      requires Accounts() && i < |elems| && elems[i].producerBt == null && held == bt
      modifies this`elems, this`held
      ensures Accounts() && held == null
      ensures var r := old(elems)[i];
              elems == old(elems)[i := Resource(r.entry.(producer := who, size := size), bt, r.consumerBt)]
    {
      var r := Resource(elems[i].entry.(producer := who, size := size), bt, elems[i].consumerBt);
      forall b | b in owned
        ensures Refs(elems[i := r], b) == Refs(elems, b) + (if b == bt then 1 else 0)
      {
        RefsAround(elems, i, r, b);
      }
      elems, held := elems[i := r], null;
    }

    /** Takes a resource out of use: removed with its producer's backtrace, or marked as consumed and
        sharing the handler's backtrace. */
    method DeleteResource(i: nat, who: Action, bt: Backtrace?)
      requires Accounts() && i < |elems| && held == bt
      requires elems[i].entry.consumer.None? && nActive > 0
      requires i == Find(Entries(elems), elems[i].entry.addr)
      modifies this`elems, this`nActive, this`nConsumed, this`owned, owned`refCount, owned`freed
      ensures Accounts() && held == bt && owned <= old(owned)
      ensures nActive == old(nActive) - 1
      ensures reallyFree ==> elems == old(elems)[..i] + old(elems)[i + 1..] && nConsumed == old(nConsumed)
      ensures !reallyFree ==>
                && elems ==
                   old(elems)[i := old(elems)[i].(entry := Consume(old(elems)[i].entry, who), consumerBt := bt)]
                && nConsumed == old(nConsumed) + 1
    {
      if reallyFree {
        ReallyDelete(elems[i].entry.addr);
      } else {
        MarkAsFree(i, who, bt);
      }
    }

    /** Searches for the resource at an address and removes it. */
    method ReallyDelete(a: Word)
      requires Accounts() && nActive > 0
      requires var i := Find(Entries(elems), a); i < |elems| && elems[i].entry.consumer.None?
      modifies this`elems, this`nActive, this`owned, owned`refCount, owned`freed
      ensures Accounts() && owned <= old(owned)
      ensures nActive == old(nActive) - 1
      ensures var i := Find(Entries(old(elems)), a); elems == old(elems)[..i] + old(elems)[i + 1..]
    {
      var i := Lookup(a);
      hide Find, Entries;
      nActive := nActive - 1;
      RefsRemoved(elems, i, owned);
      HoldersRemoved(elems, i, owned);
      var bt := elems[i].producerBt;
      if bt == null {
        elems := elems[..i] + elems[i + 1..];
        return;
      }
      RefsSome(elems, i, bt);
      elems := elems[..i] + elems[i + 1..];
      bt.Close();
      Forget(bt);
    }

    /** A freed backtrace is in no field any more. */
    ghost method Forget(bt: Backtrace)
      requires bt in owned && (bt.freed <==> bt.refCount == 0)
      requires bt.refCount == Refs(elems, bt) + (if bt == held then 1 else 0)
      requires forall b :: b in owned && b != bt ==>
                 b.Usable() && b.refCount == Refs(elems, b) + (if b == held then 1 else 0)
      requires held != null ==> held in owned
      requires forall i :: 0 <= i < |elems| ==> Holder(elems[i], owned)
      modifies this`owned
      ensures Accounts() && owned <= old(owned)
    {
      if bt.freed {
        owned := owned - {bt};
        forall i | 0 <= i < |elems|
          ensures elems[i].producerBt != bt && elems[i].consumerBt != bt
        {
          if elems[i].producerBt == bt || elems[i].consumerBt == bt {
            RefsSome(elems, i, bt);
          }
        }
      }
    }

    method MarkAsFree(i: nat, who: Action, bt: Backtrace?)
      requires Accounts() && i < |elems| && held == bt && nActive > 0 && elems[i].entry.consumer.None?
      modifies this`elems, this`nActive, this`nConsumed, owned`refCount, owned`freed
      ensures Accounts()
      ensures nActive == old(nActive) - 1 && nConsumed == old(nConsumed) + 1
      ensures elems == old(elems)[i := old(elems)[i].(entry := Consume(old(elems)[i].entry, who), consumerBt := bt)]
    {
      var r := elems[i].(entry := Consume(elems[i].entry, who), consumerBt := bt);
      forall b | b in owned
        ensures Refs(elems[i := r], b) == Refs(elems, b) + (if b == bt then 1 else 0)
      {
        RefsAround(elems, i, r, b);
      }
      if bt != null {
        bt.Share();
      }
      elems, nActive, nConsumed := elems[i := r], nActive - 1, nConsumed + 1;
    }

    /** Gives up the backtrace of a resource's consumer. */
    method CloseConsumer(i: nat)
      requires Accounts() && i < |elems| && elems[i].consumerBt != null
      modifies this`elems, this`owned, owned`refCount, owned`freed
      ensures Accounts() && owned <= old(owned)
      ensures elems == old(elems)[i := old(elems)[i].(consumerBt := null)]
    {
      var bt, r := elems[i].consumerBt, elems[i].(consumerBt := null);
      RefsSome(elems, i, bt);
      forall b | b in owned
        ensures Refs(elems[i := r], b) == Refs(elems, b) - (if b == bt then 1 else 0)
      {
        RefsAround(elems, i, r, b);
      }
      elems := elems[i := r];
      bt.Close();
      Forget(bt);
    }

    /** Reuses a resource for an object that was moved or resized in place; with backtraces on, the
        ones it held are given up for the handler's. */
    method Rewrite(i: nat, a: Word, size: Word, backtraces: bool, bt: Backtrace?)
      requires Accounts() && i < |elems| && held == bt
      requires backtraces ==> elems[i].producerBt != null
      requires !backtraces ==> elems[i].producerBt == null && elems[i].consumerBt == null && bt == null
      modifies this`elems, this`owned, this`held, owned`refCount, owned`freed
      ensures Accounts() && held == null && owned <= old(owned)
      ensures elems == old(elems)[i := Resource(Entry(a, size, Realloc, None), bt, null)]
    {
      var e := Entry(a, size, Realloc, None);
      if !backtraces {
        var r := Resource(e, null, null);
        forall b | b in owned
          ensures Refs(elems[i := r], b) == Refs(elems, b)
        {
          RefsAround(elems, i, r, b);
        }
        elems := elems[i := r];
        return;
      }
      if elems[i].consumerBt != null {
        CloseConsumer(i);
      }
      TakeOver(i, e, bt);
    }

    /** Gives a resource to another object and its producer's backtrace up for the handler's. */
    method TakeOver(i: nat, e: Entry, bt: Backtrace?)
      requires Accounts() && i < |elems| && held == bt
      requires elems[i].producerBt != null && elems[i].consumerBt == null
      modifies this`elems, this`owned, this`held, owned`refCount, owned`freed
      ensures Accounts() && held == null && owned <= old(owned)
      ensures elems == old(elems)[i := Resource(e, bt, null)]
    {
      var oldP := elems[i].producerBt;
      RefsSome(elems, i, oldP);
      var r := Resource(e, bt, null);
      forall b | b in owned
        ensures Refs(elems[i := r], b) == Refs(elems, b) - (if b == oldP then 1 else 0) + (if b == bt then 1 else 0)
      {
        RefsAround(elems, i, r, b);
      }
      elems, held := elems[i := r], null;
      oldP.Close();
      Forget(oldP);
    }

    method IterOpen(all: bool) returns (it: Iter, n: nat)
      ensures it == Iter(0, all) && n == nActive + if all then nConsumed else 0
    {
      it, n := Iter(0, all), nActive + if all then nConsumed else 0;
    }

    /** The next entry the iterator is to return, if there is one. */
    method IterRead(it: Iter) returns (it': Iter, item: Option<Resource>)
      requires it.pos <= |elems|
      ensures it'.all == it.all && it'.pos <= |elems|
      ensures item.None? <==> Remaining(Entries(elems), it) == []
      ensures item.Some? ==> item.value in elems && it.pos < it'.pos
      ensures item.Some? && !it.all ==> item.value.entry.consumer.None?
      ensures item.Some? ==> Remaining(Entries(elems), it) == [item.value.entry] + Remaining(Entries(elems), it')
    {
      it', item := it, None;
      ghost var es := Entries(elems);
      while it'.pos < |elems|
        invariant it.pos <= it'.pos <= |elems| && it'.all == it.all
        invariant Remaining(es, it') == Remaining(es, it)
      {
        var r := elems[it'.pos];
        assert es[it'.pos..] == [r.entry] + es[it'.pos + 1..];
        it' := it'.(pos := it'.pos + 1);
        if it'.all || r.entry.consumer.None? {
          return it', Some(r);
        }
      }
    }

    /** Every backtrace counts the fields of `rest`, the handler, and up to two fields more. */
    ghost predicate Shared(rest: seq<Resource>, x: Backtrace?, y: Backtrace?)
      reads this`owned, this`held, owned
    {
      forall bt :: bt in owned ==>
        && bt.refCount ==
           Refs(rest, bt) + (if bt == held then 1 else 0) + (if bt == x then 1 else 0) + (if bt == y then 1 else 0)
        && (bt.freed <==> bt.refCount == 0)
    }

    /** One field gives up its backtrace. */
    method GiveBack(bt: Backtrace?, ghost rest: seq<Resource>, ghost other: Backtrace?)
      requires bt != null ==> bt in owned
      requires Shared(rest, bt, other)
      modifies owned`refCount, owned`freed
      ensures Shared(rest, other, null)
    {
      if bt != null {
        bt.Close();
      }
    }

    /** Gives up every backtrace the list holds; each is freed exactly once. */
    method Close()
      requires Accounts()
      modifies owned`refCount, owned`freed
      ensures forall bt :: bt in owned && bt != held ==> bt.freed
      ensures held != null ==> held.Usable() && held.refCount == 1
    {
      hide Refs;
      var i := 0;
      assert elems[0..] == elems;
      while i < |elems|
        invariant i <= |elems|
        invariant Shared(elems[i..], null, null)
      {
        var r := elems[i];
        RefsFrom(elems, i);
        assert Holder(r, owned);
        assert Shared(elems[i + 1..], r.producerBt, r.consumerBt);
        hide Shared;
        GiveBack(r.producerBt, elems[i + 1..], r.consumerBt);
        GiveBack(r.consumerBt, elems[i + 1..], null);
        i := i + 1;
      }
      RefsFrom(elems, i);
    }
  }
}
