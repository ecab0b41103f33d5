/** The ring of records txt2mb builds (tools/cli/txt2mb.c:123-127, 466-527): a circular
    doubly linked list with a head node, sorted by code, searched from the record that was
    inserted last. */
module RecordRing {
  import opened Order
  import opened Keyed
  import opened Splicing

  datatype RecordType = Normal | Pinyin | Construct | Prompt

  datatype Entry = Entry(code: string, hz: string, kind: RecordType)

  function CodeKey(): Entry -> string {
    (e: Entry) => e.code
  }

  lemma {:induction false} Below(all: seq<Entry>, n: nat, code: string)
    requires Sorted(CodeKey(), all) && n < |all| && Le(all[n].code, code)
    ensures forall i :: 0 <= i <= n ==> Le(all[i].code, code)
  {
    forall i | 0 <= i < n ensures Le(all[i].code, code) {
      LeTransitive(all[i].code, all[n].code, code);
    }
  }

  lemma Above(all: seq<Entry>, n: nat, code: string)
    requires Sorted(CodeKey(), all) && n < |all| && Lt(code, all[n].code)
    ensures forall i :: n <= i < |all| ==> Lt(code, all[i].code)
  {
    forall i | n < i < |all| ensures Lt(code, all[i].code) {
      if Le(all[i].code, code) { LeTransitive(all[n].code, all[i].code, code); }
    }
  }

  /** The backward search misses nothing: behind the hint, the last of its run, no code is
      equal to one that is not above the hint. */
  lemma NoneBehindHint(all: seq<Entry>, h: nat, p: nat, e: Entry)
    requires Sorted(CodeKey(), all) && p <= h + 1 <= |all| && Le(e.code, all[h].code)
    requires h + 1 < |all| ==> Lt(all[h].code, all[h + 1].code)
    requires p > 0 ==> Lt(all[p - 1].code, e.code)
    requires forall i :: p <= i <= h ==> all[i] != e
    ensures e !in all
  {
    LeReflexive(e.code);
    if p > 0 { StrictlyBelow(all, p - 1, e.code); }
    if h + 1 < |all| {
      Above(all, h + 1, all[h].code);
    }
    forall i | h < i < |all| ensures all[i] != e {
      assert Lt(all[h].code, all[i].code);
    }
  }

  lemma StrictlyBelow(all: seq<Entry>, n: nat, code: string)
    requires Sorted(CodeKey(), all) && n < |all| && Lt(all[n].code, code)
    ensures forall i :: 0 <= i <= n ==> Lt(all[i].code, code)
  {
    forall i | 0 <= i < n ensures Lt(all[i].code, code) {
      if Le(code, all[i].code) { LeTransitive(code, all[i].code, all[n].code); }
    }
  }

  lemma StopFits(all: seq<Entry>, p: nat, e: Entry)
    requires Sorted(CodeKey(), all) && p <= |all|
    requires forall i :: 0 <= i < p ==> Le(all[i].code, e.code)
    requires p < |all| ==> Lt(e.code, all[p].code)
    ensures Fits(CodeKey(), all, e, p)
  {
    if p < |all| { Above(all, p, e.code); }
  }

  class Record {
    const strCode: string
    const strHZ: string
    const kind: RecordType
    var next: Record
    var prev: Record

    constructor (code: string, hz: string, kind: RecordType)
      ensures strCode == code && strHZ == hz && this.kind == kind
      ensures next == this && prev == this
    {
      strCode, strHZ, this.kind := code, hz, kind;
      next, prev := this, this;
    }

    function AsEntry(): Entry {
      Entry(strCode, strHZ, kind)
    }
  }

  /** What the records behind the head hold. */
  ghost function Entries(nodes: seq<Record>): (c: seq<Entry>)
    requires nodes != []
    ensures |c| == |nodes| - 1
    ensures forall i :: 0 < i < |nodes| ==> c[i - 1] == nodes[i].AsEntry()
  {
    seq(|nodes| - 1, i requires 0 <= i < |nodes| - 1 => nodes[i + 1].AsEntry())
  }

  lemma EntriesInsert(nodes: seq<Record>, p: nat, r: Record)
    requires 1 <= p <= |nodes|
    ensures Entries(nodes[..p] + [r] + nodes[p..]) == Entries(nodes)[..p - 1] + [r.AsEntry()] + Entries(nodes)[p - 1..]
  {
    var more := nodes[..p] + [r] + nodes[p..];
    forall i | 0 < i < |more|
      ensures more[i] == if i < p then nodes[i] else if i == p then r else nodes[i - 1]
    {
    }
  }

  /* ----- the links of the ring ----- */

  ghost function Around(nodes: seq<Record>, i: nat): Record
    requires i <= |nodes| && nodes != []
  {
    if i == |nodes| then nodes[0] else nodes[i]
  }

  ghost predicate NextLinked(nodes: seq<Record>)
    reads nodes`next
  {
    nodes != [] && forall i {:trigger nodes[i].next} :: 0 <= i < |nodes| ==> nodes[i].next == Around(nodes, i + 1)
  }

  ghost predicate PrevLinked(nodes: seq<Record>)
    reads nodes`prev
  {
    && nodes != [] && nodes[0].prev == nodes[|nodes| - 1]
    && forall i {:trigger nodes[i].prev} :: 0 < i < |nodes| ==> nodes[i].prev == nodes[i - 1]
  }

  /** left->next = r; r->next = temp. */
  method LinkNext(left: Record, r: Record, temp: Record, ghost nodes: seq<Record>, ghost p: nat)
    requires Distinct(nodes) && NextLinked(nodes) && r !in nodes
    requires 1 <= p <= |nodes| && left == nodes[p - 1] && temp == Around(nodes, p)
    modifies left`next, r`next
    ensures NextLinked(nodes[..p] + [r] + nodes[p..])
  {
    hide Distinct;
    ghost var more := nodes[..p] + [r] + nodes[p..];
    OthersDiffer(nodes, p - 1);
    Spliced(nodes, p, r);
    left.next := r;
    r.next := temp;
    forall i | 0 <= i < |more|
      ensures more[i].next == Around(more, i + 1)
    {
      if i < p - 1 {
        assert more[i].next == old(nodes[i].next);
      } else if p < i {
        assert more[i].next == old(nodes[i - 1].next);
      }
    }
  }

  /** r->prev = temp->prev; temp->prev = r. */
  method LinkPrev(r: Record, temp: Record, ghost nodes: seq<Record>, ghost p: nat)
    requires Distinct(nodes) && PrevLinked(nodes) && r !in nodes
    requires 1 <= p <= |nodes| && temp == Around(nodes, p)
    modifies temp`prev, r`prev
    ensures PrevLinked(nodes[..p] + [r] + nodes[p..])
  {
    hide Distinct;
    ghost var more := nodes[..p] + [r] + nodes[p..];
    OthersDiffer(nodes, if p == |nodes| then 0 else p);
    Spliced(nodes, p, r);
    r.prev := temp.prev;
    temp.prev := r;
    forall i | 0 < i < |more|
      ensures more[i].prev == more[i - 1]
    {
      if i < p {
        assert more[i].prev == old(nodes[i].prev);
      } else if p + 1 < i {
        assert more[i].prev == old(nodes[i - 1].prev);
      }
    }
  }

  class Ring {
    const head: Record
    var current: Record
    ghost var nodes: seq<Record>
    ghost var hint: nat

    /** Node i of the ring, the head standing behind the last record again. */
    ghost function Node(i: nat): Record
      requires i <= |nodes| && nodes != []
      reads this
    {
      Around(nodes, i)
    }

    ghost predicate Linked()
      reads this, nodes
    {
      nodes != [] && nodes[0] == head && Distinct(nodes) && NextLinked(nodes) && PrevLinked(nodes)
    }

    ghost function Contents(): (c: seq<Entry>)
      requires nodes != []
      reads this
    {
      Entries(nodes)
    }

    /** The ring is linked and sorted without duplicates, and the hint is its head, when it
        is empty, or else the last record of a run of equal codes. */
    ghost predicate Valid()
      reads this, nodes
    {
      && Linked()
      && Sorted(CodeKey(), Contents()) && Distinct(Contents())
      && hint < |nodes| && current == nodes[hint]
      && (hint == 0 ==> |nodes| == 1)
      && (0 < hint < |nodes| - 1 ==> Lt(nodes[hint].strCode, nodes[hint + 1].strCode))
    }

    constructor ()
      ensures Valid() && Contents() == [] && fresh(nodes)
    {
      head := new Record("", "", Normal);
      current := head;
      nodes := [head];
      hint := 0;
    }

    /** Node p holds entry p - 1; its neighbours are the nodes next to it. */
    lemma AtNode(p: nat)
      requires Linked() && 0 < p < |nodes|
      ensures nodes[p] != head && nodes[p].AsEntry() == Contents()[p - 1]
      ensures nodes[p].next == Node(p + 1) && nodes[p].prev == nodes[p - 1]
    {
    }

    method SearchBackwards(code: string, hz: string, kind: RecordType)
        returns (duplicate: bool, temp: Record, ghost p: nat)
      requires Valid() && hint > 0 && Le(code, current.strCode)
      ensures duplicate ==> Entry(code, hz, kind) in Contents()
      ensures !duplicate ==> (0 <= p <= hint && temp == nodes[p]
                              && (p > 0 ==> Lt(Contents()[p - 1].code, code))
                              && forall i :: p <= i < hint ==> Contents()[i] != Entry(code, hz, kind))
    {
      hide Linked, Le, Sorted, Distinct;
      ghost var e, all := Entry(code, hz, kind), Contents();
      AtNode(hint);
      temp, p := current, hint;
      while temp != head && Le(code, temp.strCode)
        invariant 0 <= p <= hint && temp == nodes[p] && (p == 0 <==> temp == head)
        invariant p > 0 ==> temp.AsEntry() == all[p - 1]
        invariant forall i :: p <= i < hint ==> all[i] != e
        decreases p
      {
        if temp.strHZ == hz && temp.strCode == code && temp.kind == kind {
          assert all[p - 1] == e;
          return true, temp, p;
        }
        AtNode(p);
        temp, p := temp.prev, p - 1;
        if p > 0 { AtNode(p); } else { HeadIsFirst(); }
      }
      duplicate := false;
    }

    lemma HeadIsFirst()
      requires Linked()
      ensures nodes != [] && nodes[0] == head && head.next == Node(1) && Node(|nodes|) == head
    {
    }

    /** The walk forwards over codes not above the new one; with `check` it stops at an
        equal record. */
    method SearchForwards(code: string, hz: string, kind: RecordType, from: Record, ghost start: nat, check: bool)
        returns (duplicate: bool, temp: Record, ghost p: nat)
      requires Valid() && 1 <= start <= |nodes| && from == Node(start)
      requires forall i :: 0 <= i < start - 1 ==> Le(Contents()[i].code, code)
      ensures duplicate ==> check && Entry(code, hz, kind) in Contents()
      ensures !duplicate ==> (start <= p <= |nodes| && temp == Node(p)
                              && Fits(CodeKey(), Contents(), Entry(code, hz, kind), p - 1)
                              && (check ==> forall i :: start - 1 <= i < p - 1 ==>
                                Contents()[i] != Entry(code, hz, kind)))
    {
      hide Linked, Le, Sorted, Distinct, Fits, Entries;
      ghost var e, all := Entry(code, hz, kind), Contents();
      temp, p := from, start;
      HeadIsFirst();
      if p < |nodes| { AtNode(p); }
      while temp != head && Le(temp.strCode, code)
        invariant start <= p <= |nodes| && temp == Node(p) && (p == |nodes| <==> temp == head)
        invariant p < |nodes| ==> temp.AsEntry() == all[p - 1]
        invariant forall i :: 0 <= i < p - 1 ==> Le(all[i].code, code)
        invariant check ==> forall i :: start - 1 <= i < p - 1 ==> all[i] != e
        decreases |nodes| - p
      {
        if check && temp.strHZ == hz && temp.strCode == code && temp.kind == kind {
          assert all[p - 1] == e;
          return true, temp, p;
        }
        AtNode(p);
        temp, p := temp.next, p + 1;
        if p < |nodes| { AtNode(p); }
      }
      StopFits(all, p - 1, e);
      duplicate := false;
    }

    /** After a backward search that found nothing the new record is not in the ring, and
        everything up to the record where the search stopped is below it. */
    lemma PassedAll(p: nat, e: Entry)
      requires Valid() && 0 <= p <= hint && hint > 0 && Le(e.code, current.strCode)
      requires p > 0 ==> Lt(Contents()[p - 1].code, e.code)
      requires forall i :: p <= i < hint ==> Contents()[i] != e
      ensures e !in Contents()
      ensures forall i :: 0 <= i < p ==> Le(Contents()[i].code, e.code)
      ensures p > 0 ==> nodes[p] != head
    {
      hide Linked, Le, Distinct, Sorted;
      var all := Contents();
      AtNode(hint);
      if hint + 1 < |nodes| { AtNode(hint + 1); }
      NoneBehindHint(all, hint - 1, p, e);
      if p > 0 {
        AtNode(p);
        LeTotal(all[p - 1].code, e.code);
        Below(all, p - 1, e.code);
      }
    }

    /** The search: from the hint backwards over codes not below the new one and then to the
        end of their run, or forwards over codes not above it. */
    method Find(code: string, hz: string, kind: RecordType) returns (duplicate: bool, temp: Record, ghost p: nat)
      requires Valid()
      ensures duplicate <==> Entry(code, hz, kind) in Contents()
      ensures !duplicate ==> (1 <= p <= |nodes| && temp == Node(p)
                              && Fits(CodeKey(), Contents(), Entry(code, hz, kind), p - 1))
    {
      hide Linked, Le, Distinct, Fits, Sorted, Entries;
      ghost var e, all := Entry(code, hz, kind), Contents();
      HeadIsFirst();
      if hint > 0 { AtNode(hint); }
      if current == head {
        NothingFits(e);
        return false, head, 1;
      }
      LeTotal(code, current.strCode);
      if Le(code, current.strCode) {
        duplicate, temp, p := SearchBackwards(code, hz, kind);
        if duplicate { return; }
        PassedAll(p, e);
        if temp == head { temp, p := temp.next, p + 1; }
        duplicate, temp, p := SearchForwards(code, hz, kind, temp, p, false);
      } else {
        Below(all, hint - 1, code);
        duplicate, temp, p := SearchForwards(code, hz, kind, current, hint, true);
        if !duplicate { NoneOutside(all, hint - 1, p - 1, e); }
      }
    }

    /** Links a new record in front of `temp`: the two links forwards, then the two backwards. */
    method InsertBefore(temp: Record, ghost p: nat, code: string, hz: string, kind: RecordType)
      requires Linked() && 1 <= p <= |nodes| && temp == Node(p)
      modifies this, nodes
      ensures Linked() && fresh(current) && hint == p && |nodes| == old(|nodes|) + 1
      ensures current.AsEntry() == Entry(code, hz, kind)
      ensures nodes == old(nodes)[..p] + [current] + old(nodes)[p..]
    {
      hide Entries, Distinct, NextLinked, PrevLinked;
      BeforeNode(p);
      var newRec := new Record(code, hz, kind);
      InsertDistinct(nodes, p, newRec);
      LinkNext(temp.prev, newRec, temp, nodes, p);
      LinkPrev(newRec, temp, nodes, p);
      current, hint := newRec, p;
      nodes := nodes[..p] + [newRec] + nodes[p..];
    }

    lemma BeforeNode(p: nat)
      requires Linked() && 1 <= p <= |nodes|
      ensures Node(p).prev == nodes[p - 1] && nodes[p - 1].next == Node(p)
    {
    }

    /** One data line: a record not there yet goes behind all that are not above it, and
        becomes the hint. */
    method Add(code: string, hz: string, kind: RecordType) returns (added: bool)
      requires Valid()
      modifies this, nodes
      ensures Valid() && forall i :: 0 <= i < |nodes| ==> nodes[i] in old(nodes) || fresh(nodes[i])
      ensures added <==> Entry(code, hz, kind) !in old(Contents())
      ensures !added ==> Contents() == old(Contents())
      ensures added ==> exists p: nat :: Inserted(old(Contents()), Entry(code, hz, kind), p, Contents())
    {
      hide Linked, Le, Fits, Sorted, Distinct;
      var duplicate, temp;
      ghost var p;
      duplicate, temp, p := Find(code, hz, kind);
      if duplicate { return false; }
      ghost var all, e := Contents(), Entry(code, hz, kind);
      HintIsLast(all, e, p - 1);
      InsertedIsSorted(all, e, p - 1);
      InsertBefore(temp, p, code, hz, kind);
      EntriesInsert(old(nodes), p, current);
      added := true;
      assert Inserted(all, e, p - 1, Contents());
      assert p + 1 < |nodes| ==> Contents()[p] == all[p - 1] && nodes[p + 1].AsEntry() == Contents()[p];
    }
  }

  lemma HintIsLast(all: seq<Entry>, e: Entry, p: nat)
    requires Fits(CodeKey(), all, e, p)
    ensures p < |all| ==> Lt(e.code, all[p].code)
  {
  }

  /** e is put into `all` behind everything not above it. */
  ghost predicate Inserted(all: seq<Entry>, e: Entry, p: nat, out: seq<Entry>) {
    Fits(CodeKey(), all, e, p) && out == all[..p] + [e] + all[p..]
  }

  lemma InsertedIsSorted(all: seq<Entry>, e: Entry, p: nat)
    requires Sorted(CodeKey(), all) && Distinct(all) && e !in all && Fits(CodeKey(), all, e, p)
    ensures Sorted(CodeKey(), all[..p] + [e] + all[p..]) && Distinct(all[..p] + [e] + all[p..])
  {
    FitsKeepsSorted(CodeKey(), all, e, p);
  }

  lemma NothingFits(e: Entry)
    ensures Fits(CodeKey(), [], e, 0)
  {
  }

  /** The forward search misses nothing: codes before the hint are below the new one. */
  lemma NoneOutside(all: seq<Entry>, h: nat, p: nat, e: Entry)
    requires Sorted(CodeKey(), all) && h < |all| && Lt(all[h].code, e.code)
    requires Fits(CodeKey(), all, e, p)
    requires forall i :: h <= i < p ==> all[i] != e
    ensures e !in all
  {
    LeReflexive(e.code);
    StrictlyBelow(all, h, e.code);
  }
}
