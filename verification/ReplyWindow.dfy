/** The server's memory of calls: `reply_window_`, `checkduplicate_and_update` and `add_reply`. */
module ReplyWindow {
  import opened RpcTypes

  // ---------------------------------------------------------------- specification on tables

  /** A call is too old when the table remembers something and everything it remembers is newer. */
  predicate TooOld(t: Table, xid: nat) {
    t != map[] && forall k :: k in t ==> xid < k
  }

  /** The verdict on call `xid`, whose request acknowledges everything up to `xidRep`, and the
      table afterwards. */
  function Check(t: Table, xid: nat, xidRep: nat): (Verdict, Table) {
    if xid in t then
      (if t[xid].Some? then Done(t[xid].value) else InProgress, t)
    else if TooOld(t, xid) then
      (Forgotten, t)
    else
      (New, Keep(t[xid := None], xidRep))
  }

  function Keep(t: Table, xidRep: nat): Table {
    map k | k in t && xidRep <= k :: t[k]
  }

  function Record(t: Table, xid: nat, reply: Result): Table {
    if xid in t then t[xid := Some(reply)] else t
  }

  /** The server on its own protects a call from a second execution exactly when the request does
      not acknowledge itself away, or when something newer is left behind to make it too old. */
  lemma RepeatedNewIff(t: Table, xid: nat, xidRep: nat)
    requires Check(t, xid, xidRep).0 == New
    ensures Check(Check(t, xid, xidRep).1, xid, xidRep).0 == New
       <==> xid < xidRep && forall k :: k in t ==> k < xidRep
  {
    var t' := Check(t, xid, xidRep).1;
    if xid < xidRep {
      if k :| k in t && xidRep <= k {
        assert k in t';
      } else {
        assert t' == map[];
      }
    }
  }

  // ---------------------------------------------------------------- the list behind the table

  datatype Entry = Entry(xid: nat, present: bool, buf: Result) {
    function Value(): Option<Result> {
      if present then Some(buf) else None
    }
  }

  predicate Increasing(l: seq<Entry>) {
    forall i, j :: 0 <= i < j < |l| ==> l[i].xid < l[j].xid
  }

  /** The ordered list `l` holds exactly the entries of table `t`. */
  ghost predicate Holds(l: seq<Entry>, t: Table) {
    && Increasing(l)
    && (forall i :: 0 <= i < |l| ==> l[i].xid in t && t[l[i].xid] == l[i].Value())
    && (forall k :: k in t ==> Has(l, k))
  }

  ghost predicate Has(l: seq<Entry>, k: nat) {
    exists i :: 0 <= i < |l| && l[i].xid == k
  }

  lemma FrontDecidesAge(l: seq<Entry>, t: Table, xid: nat)
    requires Holds(l, t)
    ensures TooOld(t, xid) <==> |l| > 0 && xid < l[0].xid
  {
    if |l| > 0 {
      assert l[0].xid in t;
      forall k | k in t && xid < l[0].xid ensures xid < k {
        var i :| 0 <= i < |l| && l[i].xid == k;
      }
    } else {
      assert t == map[];
    }
  }

  /** `l'` is `l` with `e` placed at position `at`. */
  predicate Inserted(l: seq<Entry>, l': seq<Entry>, at: nat, e: Entry) {
    && at <= |l| && |l'| == |l| + 1
    && l'[at] == e
    && (forall j :: 0 <= j < at ==> l'[j] == l[j])
    && (forall j :: at < j < |l'| ==> l'[j] == l[j - 1])
  }

  lemma InsertHas(l: seq<Entry>, l': seq<Entry>, at: nat, e: Entry, k: nat)
    requires Inserted(l, l', at, e) && Has(l, k)
    ensures Has(l', k)
  {
    var i :| 0 <= i < |l| && l[i].xid == k;
    assert l'[if i < at then i else i + 1].xid == k;
  }

  lemma InsertIncreases(l: seq<Entry>, l': seq<Entry>, at: nat, e: Entry)
    requires Increasing(l) && Inserted(l, l', at, e)
    requires forall j :: 0 <= j < at ==> l[j].xid < e.xid
    requires at < |l| ==> e.xid < l[at].xid
    ensures Increasing(l')
  {
  }

  lemma InsertHolds(l: seq<Entry>, l': seq<Entry>, t: Table, at: nat, e: Entry)
    requires Holds(l, t) && e.xid !in t && Inserted(l, l', at, e)
    requires forall j :: 0 <= j < at ==> l[j].xid < e.xid
    requires at < |l| ==> e.xid < l[at].xid
    ensures Holds(l', t[e.xid := e.Value()])
  {
    InsertIncreases(l, l', at, e);
    assert Has(l', e.xid);
    hide Has, Increasing;
    forall k | k in t ensures Has(l', k) {
      InsertHas(l, l', at, e, k);
    }
    InsertValues(l, l', t, at, e);
    hide Inserted;
  }

  lemma InsertValues(l: seq<Entry>, l': seq<Entry>, t: Table, at: nat, e: Entry)
    requires Holds(l, t) && e.xid !in t && Inserted(l, l', at, e)
    ensures var t' := t[e.xid := e.Value()];
      forall j :: 0 <= j < |l'| ==> l'[j].xid in t' && t'[l'[j].xid] == l'[j].Value()
  {
    forall j | 0 <= j < |l'| && j != at ensures l'[j].xid in t && t[l'[j].xid] == l'[j].Value() {
      assert l'[j] == l[if j < at then j else j - 1];
    }
  }

  lemma EraseHolds(l: seq<Entry>, t: Table, at: nat, xidRep: nat)
    requires Holds(l, t) && at <= |l|
    requires forall j :: 0 <= j < at ==> l[j].xid < xidRep
    requires at < |l| ==> xidRep <= l[at].xid
    ensures Holds(l[at..], Keep(t, xidRep))
  {
    var l' := l[at..];
    forall k | k in Keep(t, xidRep) ensures Has(l', k) {
      var i :| 0 <= i < |l| && l[i].xid == k;
      assert l'[i - at].xid == k;
    }
  }

  lemma RecordHolds(l: seq<Entry>, t: Table, at: nat, reply: Result)
    requires Holds(l, t) && at < |l|
    ensures Holds(l[at := l[at].(present := true, buf := reply)], Record(t, l[at].xid, reply))
  {
    var l' := l[at := l[at].(present := true, buf := reply)];
    forall k | k in Record(t, l[at].xid, reply) ensures Has(l', k) {
      var i :| 0 <= i < |l| && l[i].xid == k;
      assert l'[i].xid == k;
    }
  }

  method Search(l: seq<Entry>, ghost t: Table, xid: nat) returns (it: nat)
    requires Holds(l, t)
    ensures it <= |l|
    ensures if it < |l| then l[it].xid == xid else xid !in t
  {
    it := 0;
    while it < |l|
      invariant 0 <= it <= |l|
      invariant forall j :: 0 <= j < it ==> l[j].xid != xid
    {
      if l[it].xid == xid {
        return;
      }
      it := it + 1;
    }
    assert !Has(l, xid);
  }

  method InsertOrdered(l: seq<Entry>, ghost t: Table, e: Entry) returns (l': seq<Entry>)
    requires Holds(l, t) && e.xid !in t
    ensures Holds(l', t[e.xid := e.Value()])
  {
    var it := 0;
    while it < |l| && l[it].xid <= e.xid
      invariant 0 <= it <= |l|
      invariant forall j :: 0 <= j < it ==> l[j].xid < e.xid
    {
      assert l[it].xid in t;
      it := it + 1;
    }
    l' := l[..it] + [e] + l[it..];
    InsertHolds(l, l', t, it, e);
  }

  method EraseBelow(l: seq<Entry>, ghost t: Table, xidRep: nat) returns (l': seq<Entry>)
    requires Holds(l, t)
    ensures Holds(l', Keep(t, xidRep))
  {
    var it := 0;
    while it < |l| && l[it].xid < xidRep
      invariant 0 <= it <= |l|
      invariant forall j :: 0 <= j < it ==> l[j].xid < xidRep
    {
      it := it + 1;
    }
    EraseHolds(l, t, it, xidRep);
    l' := l[it..];
  }

  /** The search, the age test, the ordered insertion and the erasure of acknowledged calls. */
  method CheckList(l: seq<Entry>, ghost t: Table, xid: nat, xidRep: nat)
      returns (v: Verdict, l': seq<Entry>)
    requires Holds(l, t)
    ensures v == Check(t, xid, xidRep).0
    ensures Holds(l', Check(t, xid, xidRep).1)
  {
    var it := Search(l, t, xid);
    if it < |l| {
      return if l[it].present then Done(l[it].buf) else InProgress, l;
    }
    FrontDecidesAge(l, t, xid);
    if |l| > 0 && xid < l[0].xid {
      return Forgotten, l;
    }
    l' := InsertOrdered(l, t, Entry(xid, false, Result(0, [])));
    l' := EraseBelow(l', t[xid := None], xidRep);
    return New, l';
  }

  /** The loop runs to the end of the list; since the calls in it are distinct it changes at most
      one of them. */
  method RecordInList(l: seq<Entry>, ghost t: Table, xid: nat, reply: Result) returns (l': seq<Entry>)
    requires Holds(l, t)
    ensures Holds(l', Record(t, xid, reply))
  {
    l' := l;
    ghost var t' := t;
    var it := 0;
    while it < |l'|
      invariant 0 <= it <= |l'|
      invariant Holds(l', t')
      invariant if exists j :: 0 <= j < it && l'[j].xid == xid then t' == Record(t, xid, reply) else t' == t
    {
      if l'[it].xid == xid {
        RecordHolds(l', t', it, reply);
        l' := l'[it := l'[it].(present := true, buf := reply)];
        t' := Record(t', xid, reply);
      }
      it := it + 1;
    }
  }

  /** One server instance's reply windows, one list per client nonce. */
  class ReplyWindows {
    var lists: map<nat, seq<Entry>>
    ghost var tables: map<nat, Table>

    ghost predicate Valid()
      reads this
    {
      && lists.Keys == tables.Keys
      && forall c :: c in lists ==> Holds(lists[c], tables[c])
    }

    ghost function TableOf(clt: nat): Table
      reads this
    {
      if clt in tables then tables[clt] else map[]
    }

    constructor ()
      ensures Valid() && tables == map[]
    {
      lists := map[];
      tables := map[];
    }

    method CheckDuplicateAndUpdate(clt: nat, xid: nat, xidRep: nat) returns (v: Verdict)
      requires Valid()
      modifies this
      ensures Valid()
      ensures v == Check(old(TableOf(clt)), xid, xidRep).0
      ensures tables == old(tables)[clt := Check(old(TableOf(clt)), xid, xidRep).1]
    {
      var l := if clt in lists then lists[clt] else [];
      ghost var t := TableOf(clt);
      v, l := CheckList(l, t, xid, xidRep);
      lists := lists[clt := l];
      tables := tables[clt := Check(t, xid, xidRep).1];
    }

    method AddReply(clt: nat, xid: nat, reply: Result)
      requires Valid()
      modifies this
      ensures Valid()
      ensures tables == old(tables)[clt := Record(old(TableOf(clt)), xid, reply)]
    {
      var l := if clt in lists then lists[clt] else [];
      ghost var t := TableOf(clt);
      l := RecordInList(l, t, xid, reply);
      lists := lists[clt := l];
      tables := tables[clt := Record(t, xid, reply)];
    }
  }
}
