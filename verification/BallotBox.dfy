/**
 The ballot box of voting/ballot_collection.c over the hash index: what any run of
 registrations, marks and removals leaves in it.

 The box as a map from identifiers is the specification; the class keeps it in the
 mutable index, where a mark deletes the old record and adds a changed copy.
 */
module BallotBox {
  import opened HashIndex

  datatype BallotState = BallotState(
    externalIdentifier: string, registeredIndex: nat, registered: bool, cast: bool, spoiled: bool, tracker: string)

  datatype Result =
    | Success
    | AlreadyRegistered
    | AlreadyCast
    | AlreadySpoiled
    | InvalidArgument
    | NotFound
    | UnknownError

  // ---- the box as a map -------------------------------------------------------------------------

  type Box = map<string, BallotState>

  datatype Op =
    | Register(id: string, tracker: string, index: nat)
    | MarkCast(id: string)
    | MarkSpoiled(id: string)
    | Remove(id: string)
    | RemoveAll

  ghost predicate Sound(box: Box) {
    forall id :: id in box ==>
      box[id].externalIdentifier == id && box[id].registered && !(box[id].cast && box[id].spoiled)
  }

  /** What a mark answers about a record, and the record it leaves. */
  function MarkAnswer(box: Box, id: string): Result {
    if id !in box then NotFound
    else if box[id].cast then AlreadyCast
    else if box[id].spoiled then AlreadySpoiled
    else Success
  }

  function AfterMark(box: Box, id: string, cast: bool): Box {
    if MarkAnswer(box, id) == Success then box[id := box[id].(cast := cast, spoiled := !cast)] else box
  }

  function Answer(box: Box, op: Op): Result {
    match op
    case Register(id, _, _) => if id in box then AlreadyRegistered else Success
    case MarkCast(id) => MarkAnswer(box, id)
    case MarkSpoiled(id) => MarkAnswer(box, id)
    case Remove(id) => if id in box then Success else NotFound
    case RemoveAll => Success
  }

  function After(box: Box, op: Op): Box {
    match op
    case Register(id, tracker, index) =>
      if id in box then box else box[id := BallotState(id, index, true, false, false, tracker)]
    case MarkCast(id) => AfterMark(box, id, true)
    case MarkSpoiled(id) => AfterMark(box, id, false)
    case Remove(id) => box - {id}
    case RemoveAll => map[]
  }

  function AfterAll(box: Box, ops: seq<Op>): Box {
    if ops == [] then box else After(AfterAll(box, ops[..|ops| - 1]), ops[|ops| - 1])
  }

  /** The operations that take a ballot out of the box. */
  predicate TakesOut(op: Op, id: string) {
    op == Remove(id) || op == RemoveAll
  }

  function Marks(box: Box, ops: seq<Op>, id: string): nat {
    if ops == [] then 0 else
      var before, op := ops[..|ops| - 1], ops[|ops| - 1];
      Marks(box, before, id)
        + if (op == MarkCast(id) || op == MarkSpoiled(id)) && Answer(AfterAll(box, before), op) == Success then 1 else 0
  }

  /** In no run is a ballot both cast and spoiled. */
  lemma {:induction false} NeverBoth(box: Box, ops: seq<Op>)
    requires Sound(box)
    ensures Sound(AfterAll(box, ops))
  {
    if ops != [] {
      NeverBoth(box, ops[..|ops| - 1]);
    }
  }

  /** While a ballot stays in the box, it keeps its index and its tracker; a mark stays too. */
  lemma {:induction false} MarksAreFinal(box: Box, ops: seq<Op>, id: string)
    requires Sound(box) && id in box && forall op :: op in ops ==> !TakesOut(op, id)
    ensures
      var end := AfterAll(box, ops);
      && id in end && end[id].tracker == box[id].tracker && end[id].registeredIndex == box[id].registeredIndex
      && (box[id].cast || box[id].spoiled ==> end[id] == box[id])
  {
    if ops != [] {
      var n := |ops| - 1;
      assert forall op :: op in ops[..n] ==> op in ops;
      assert ops[n] in ops;
      MarksAreFinal(box, ops[..n], id);
    }
  }

  /** While a ballot stays in the box at most one mark is accepted, and exactly one if it ends up marked. */
  lemma {:induction false} MarkedOnce(box: Box, ops: seq<Op>, id: string)
    requires Sound(box) && id in box && !box[id].cast && !box[id].spoiled
    requires forall op :: op in ops ==> !TakesOut(op, id)
    ensures id in AfterAll(box, ops) && Marks(box, ops, id) <= 1
    ensures Marks(box, ops, id) == 1 <==> AfterAll(box, ops)[id].cast || AfterAll(box, ops)[id].spoiled
  {
    if ops != [] {
      var n := |ops| - 1;
      assert forall op :: op in ops[..n] ==> op in ops;
      assert ops[n] in ops;
      MarkedOnce(box, ops[..n], id);
    }
  }

  /** The first mark that a run holds for a ballot. */
  function FirstMark(ops: seq<Op>, id: string): (r: seq<Op>)
    ensures |r| <= 1 && forall op :: op in r ==> op in ops && (op == MarkCast(id) || op == MarkSpoiled(id))
    ensures r == [] <==> MarkCast(id) !in ops && MarkSpoiled(id) !in ops
  {
    if ops == [] then []
    else if ops[0] == MarkCast(id) || ops[0] == MarkSpoiled(id) then [ops[0]]
    else FirstMark(ops[1..], id)
  }

  lemma {:induction false} FirstMarkOfMore(ops: seq<Op>, id: string)
    requires ops != []
    ensures
      var n := |ops| - 1;
      FirstMark(ops, id) ==
        if FirstMark(ops[..n], id) != [] then FirstMark(ops[..n], id)
        else if ops[n] == MarkCast(id) || ops[n] == MarkSpoiled(id) then [ops[n]] else []
  {
    var n := |ops| - 1;
    if n == 0 {
      assert ops[..0] == [] && ops == [ops[n]];
    } else {
      FirstMarkOfMore(ops[1..], id);
      assert ops[..n][1..] == ops[1..][..n - 1];
    }
  }

  /**
   In any run that leaves an unmarked ballot in the box, the ballot ends up cast if and
   only if the first mark for it is to cast it, and spoiled if and only if it is to spoil it.
   From then on every mark is answered by what it was.
   */
  lemma {:induction false} MarkedAsFirst(box: Box, ops: seq<Op>, id: string)
    requires Sound(box) && id in box && !box[id].cast && !box[id].spoiled
    requires forall op :: op in ops ==> !TakesOut(op, id)
    ensures
      var end, first := AfterAll(box, ops), FirstMark(ops, id);
      && id in end
      && (end[id].cast <==> first == [MarkCast(id)])
      && (end[id].spoiled <==> first == [MarkSpoiled(id)])
      && Answer(end, MarkCast(id)) == Answer(end, MarkSpoiled(id))
        == if first == [] then Success else if first == [MarkCast(id)] then AlreadyCast else AlreadySpoiled
  {
    if ops != [] {
      var n := |ops| - 1;
      assert forall op :: op in ops[..n] ==> op in ops;
      assert ops[n] in ops;
      MarkedAsFirst(box, ops[..n], id);
      FirstMarkOfMore(ops, id);
      hide FirstMark;
      var before := AfterAll(box, ops[..n]);
      if ops[n] != MarkCast(id) && ops[n] != MarkSpoiled(id) {
        assert After(before, ops[n])[id] == before[id];
      }
    }
  }

  /** A ballot that is not in the box comes in by its first registration, unmarked, with that tracker and index. */
  lemma {:induction false} RegisteredAsFirst(box: Box, ops: seq<Op>, tracker: string, index: nat, id: string)
    requires id !in box && forall op :: op in ops ==> !op.Register? || op.id != id
    ensures id !in AfterAll(box, ops)
    ensures
      var end := AfterAll(box, ops + [Register(id, tracker, index)]);
      && id in end && end[id].externalIdentifier == id && end[id].tracker == tracker && end[id].registeredIndex == index
      && end[id].registered && !end[id].cast && !end[id].spoiled
  {
    if ops != [] {
      var n := |ops| - 1;
      assert forall op :: op in ops[..n] ==> op in ops;
      assert ops[n] in ops;
      RegisteredAsFirst(box, ops[..n], tracker, index, id);
    }
    assert (ops + [Register(id, tracker, index)])[..|ops|] == ops;
  }

  /** What happens to other ballots does not matter to this one. */
  lemma {:induction false} OthersDoNotMatter(box: Box, ops: seq<Op>, id: string)
    requires forall op :: op in ops ==> op.RemoveAll? || op.id != id
    ensures id in AfterAll(box, ops) ==> id in box && AfterAll(box, ops)[id] == box[id]
    ensures id in box && RemoveAll !in ops ==> id in AfterAll(box, ops)
  {
    if ops != [] {
      var n := |ops| - 1;
      assert forall op :: op in ops[..n] ==> op in ops;
      assert ops[n] in ops;
      OthersDoNotMatter(box, ops[..n], id);
    }
  }

  /** A ballot carries these marks now, and nothing else about it or any other ballot is different. */
  ghost predicate Marked(was: Box, now: Box, id: string, cast: bool, spoiled: bool) {
    && id in was && now.Keys == was.Keys
    && now[id].cast == cast && now[id].spoiled == spoiled
    && now[id].registered == was[id].registered && now[id].tracker == was[id].tracker
    && now[id].externalIdentifier == was[id].externalIdentifier && now[id].registeredIndex == was[id].registeredIndex
    && forall other :: other in was && other != id ==> now[other] == was[other]
  }

  lemma Reinserted(box: Box, id: string, state: BallotState)
    ensures (box - {id})[id := state] == box[id := state]
  {}

  // ---- the box over the index ---------------------------------------------------------------------

  lemma FirstTwo(table: Table<BallotState>)
    requires table.Valid()
    ensures table.head == At(table.order, 0) && (table.head != null ==> table.head.next == At(table.order, 1))
    ensures Distinct(table.order) && AsMap(Entries<BallotState>([])) == map[]
  {
    if table.order != [] {
      Neighbours(table.order, table.hash, 0);
    }
  }

  class Collection {
    var table: Table<BallotState>

    ghost predicate Valid()
      reads this, table, table.order, Elems(table.chains)
    {
      table.Valid() && Sound(Ballots())
    }

    ghost function Ballots(): Box
      reads this, table
    {
      AsMap(table.Contents())
    }

    constructor (hash: string -> nat)
      ensures Valid() && Ballots() == map[] && fresh(table) && table.order == []
    {
      table := new Table(hash);
    }

    method Size() returns (n: nat)
      requires Valid()
      ensures n == |Ballots()|
    {
      MapOfEntries(table.Contents());
      n := table.Count();
    }

    method GetBallot(id: string) returns (r: Result, ballot: Elem?<BallotState>)
      requires Valid()
      ensures r == if id in Ballots() then Success else NotFound
      ensures r == Success ==> ballot != null && ballot in table.order && ballot.key == id && ballot.value == Ballots()[id]
    {
      ballot := table.Find(id);
      r := if ballot != null then Success else NotFound;
    }

    method RegisterBallot(id: string, tracker: string, index: nat) returns (r: Result)
      requires Valid()
      modifies table, table.order
      ensures Valid() && table == old(table) && fresh(Members(table.order) - old(Members(table.order)))
      ensures r == old(Answer(Ballots(), Register(id, tracker, index)))
      ensures Ballots() == old(After(Ballots(), Register(id, tracker, index)))
      ensures r == Success <==> id !in old(Ballots())
      ensures r == Success ==>
        && id in Ballots() && Ballots()[id].tracker == tracker && Ballots()[id].registeredIndex == index
        && Ballots()[id].registered && !Ballots()[id].cast && !Ballots()[id].spoiled
      ensures r != Success ==> Ballots() == old(Ballots())
    {
      hide AsMap, Entries, ListOk, BucketsOk, TotalLength;
      var found, _ := GetBallot(id);
      if found == Success {
        return AlreadyRegistered;
      }
      var newBallot := new Elem(id, table.hash(id), BallotState(id, index, true, false, false, tracker));
      table.Add(newBallot);
      r := Success;
    }

    method AssertCanMutateState(existing: BallotState) returns (r: Result)
      ensures r == if !existing.registered then UnknownError else if existing.cast then AlreadyCast
                   else if existing.spoiled then AlreadySpoiled else Success
    {
      if !existing.registered {
        return UnknownError;
      }
      if existing.cast {
        return AlreadyCast;
      }
      if existing.spoiled {
        return AlreadySpoiled;
      }
      return Success;
    }

    /** The record is deleted, and its changed copy added as the last one. */
    method Replace(existing: Elem<BallotState>, state: BallotState)
      requires table.Valid() && existing in table.order && existing.key in Ballots()
      modifies table, table.order
      ensures table.Valid() && table == old(table) && fresh(Members(table.order) - old(Members(table.order)))
      ensures Ballots() == old(Ballots())[existing.key := state]
    {
      hide AsMap, Entries, ListOk, BucketsOk, TotalLength, Elems;
      Reinserted(Ballots(), existing.key, state);
      var newState := new Elem(existing.key, table.hash(existing.key), state);
      var i := table.Delete(existing);
      table.Add(newState);
    }

    method Update(id: string, cast: bool, spoiled: bool) returns (r: Result, outTracker: string)
      requires Valid()
      modifies table, table.order
      ensures Valid() && table == old(table) && fresh(Members(table.order) - old(Members(table.order)))
      ensures r == if cast == spoiled then InvalidArgument else old(MarkAnswer(Ballots(), id))
      ensures Ballots() == if cast == spoiled then old(Ballots()) else old(AfterMark(Ballots(), id, cast))
      ensures r == Success ==> id in old(Ballots()) && outTracker == old(Ballots())[id].tracker
      ensures r == Success ==> Marked(old(Ballots()), Ballots(), id, cast, spoiled)
      ensures r != Success ==> Ballots() == old(Ballots())
    {
      hide AsMap, Entries, ListOk, BucketsOk, TotalLength, Elems, AppList, Distinct, DistinctKeys;
      outTracker := "";
      if cast == spoiled {
        return InvalidArgument, outTracker;
      }
      var found, existing := GetBallot(id);
      if found == NotFound {
        return NotFound, outTracker;
      }
      r := AssertCanMutateState(existing.value);
      if r != Success {
        return;
      }
      Replace(existing, existing.value.(cast := cast, spoiled := spoiled));
      outTracker := existing.value.tracker;
    }

    method MarkBallotCast(id: string) returns (r: Result, outTracker: string)
      requires Valid()
      modifies table, table.order
      ensures Valid() && table == old(table) && fresh(Members(table.order) - old(Members(table.order)))
      ensures r == old(Answer(Ballots(), MarkCast(id))) && Ballots() == old(After(Ballots(), MarkCast(id)))
      ensures r == Success ==> id in old(Ballots()) && outTracker == old(Ballots())[id].tracker
      ensures r == Success ==> Ballots()[id].cast && !Ballots()[id].spoiled
      ensures r == Success ==> Marked(old(Ballots()), Ballots(), id, true, false)
      ensures r == Success <==> id in old(Ballots()) && !old(Ballots())[id].cast && !old(Ballots())[id].spoiled
      ensures r != Success ==> Ballots() == old(Ballots())
    {
      hide Members, AsMap, Entries, Elems, HashIndex.ListOk, BucketsOk, Sound;
      r, outTracker := Update(id, true, false);
    }

    method MarkBallotSpoiled(id: string) returns (r: Result, outTracker: string)
      requires Valid()
      modifies table, table.order
      ensures Valid() && table == old(table) && fresh(Members(table.order) - old(Members(table.order)))
      ensures r == old(Answer(Ballots(), MarkSpoiled(id))) && Ballots() == old(After(Ballots(), MarkSpoiled(id)))
      ensures r == Success ==> id in old(Ballots()) && outTracker == old(Ballots())[id].tracker
      ensures r == Success ==> !Ballots()[id].cast && Ballots()[id].spoiled
      ensures r == Success ==> Marked(old(Ballots()), Ballots(), id, false, true)
      ensures r == Success <==> id in old(Ballots()) && !old(Ballots())[id].cast && !old(Ballots())[id].spoiled
      ensures r != Success ==> Ballots() == old(Ballots())
    {
      hide Members, AsMap, Entries, Elems, HashIndex.ListOk, BucketsOk, Sound;
      r, outTracker := Update(id, false, true);
    }

    /** The record is deleted, and nothing added. */
    method TakeOut(existing: Elem<BallotState>)
      requires table.Valid() && existing in table.order
      modifies table, table.order
      ensures table.Valid() && table == old(table) && fresh(Members(table.order) - old(Members(table.order)))
      ensures Ballots() == old(Ballots()) - {existing.key}
    {
      hide AsMap, Entries, ListOk, BucketsOk, TotalLength, Elems;
      var i := table.Delete(existing);
    }

    method RemoveBallot(id: string) returns (r: Result)
      requires Valid()
      modifies table, table.order
      ensures Valid() && table == old(table) && fresh(Members(table.order) - old(Members(table.order)))
      ensures r == old(Answer(Ballots(), Remove(id))) && Ballots() == old(After(Ballots(), Remove(id)))
      ensures r == (if id in old(Ballots()) then Success else NotFound) && Ballots() == old(Ballots()) - {id}
    {
      hide AsMap, Entries, ListOk, BucketsOk, TotalLength, Elems, AppList, Distinct, DistinctKeys;
      var found, existing := GetBallot(id);
      if found == NotFound {
        assert Ballots() - {id} == Ballots();
        return NotFound;
      }
      TakeOut(existing);
      r := Success;
    }

    method RemoveAllBallots() returns (r: Result)
      requires Valid()
      modifies table, table.order
      ensures Valid() && table == old(table) && table.order == [] && r == Success && Ballots() == map[]
    {
      hide AsMap, Entries, ListOk, BucketsOk, TotalLength, Elems;
      ghost var was := table.order;
      FirstTwo(table);
      var el := table.head;
      var tmp := if el != null then el.next else null;
      while el != null
        invariant table.Valid() && table == old(table)
        invariant forall k :: 0 <= k < |table.order| ==> table.order[k] in was
        invariant el == At(table.order, 0) && tmp == At(table.order, 1)
        decreases |table.order|
      {
        FirstTwo(table);
        var i := table.Delete(el);
        el := tmp;
        FirstTwo(table);
        tmp := if tmp != null then tmp.next else null;
      }
      assert table.order == [];
      FirstTwo(table);
      r := Success;
    }
  }
}
