/** Threads that report entries of one sort on the same job at the same time: taking an index
    from the generator and publishing the entry are separate steps, so entries may be
    published in another order than that of their indices. */
module EntryMachine {
  import opened AnyValues
  import opened IndexGeneration

  type Thread = nat

  /** An index together with its number in the order of generation. */
  datatype Ticket = Ticket(number: nat, index: uint64)

  datatype Holder = Holder(t: Thread, index: uint64)

  /** `held` has the numbers that were taken and whose entry is not yet published. */
  datatype State = State(lastIdx: uint64, issued: nat, held: map<nat, Holder>)

  datatype Step =
    | TakeIndex(t: Thread)
    | PublishEntry(t: Thread, ticket: Ticket)

  const INITIAL := State(0, 0, map[])

  predicate Enabled(s: State, a: Step) {
    match a
    case TakeIndex(t) => forall number :: number in s.held ==> s.held[number].t != t
    case PublishEntry(t, ticket) => ticket.number in s.held && s.held[ticket.number] == Holder(t, ticket.index)
  }

  function Do(s: State, a: Step): State
    requires Enabled(s, a)
  {
    match a
    case TakeIndex(t) =>
      var index := Successor(s.lastIdx);
      State(index, s.issued + 1, s.held[s.issued + 1 := Holder(t, index)])
    case PublishEntry(_, ticket) => s.(held := s.held - {ticket.number})
  }

  function Exec(log: seq<Step>): Option<State> {
    if log == [] then Some(INITIAL)
    else
      match Exec(log[..|log| - 1])
      case None => None
      case Some(s) => if Enabled(s, log[|log| - 1]) then Some(Do(s, log[|log| - 1])) else None
  }

  /** The entries published so far, in the order of publication. */
  function Entries(log: seq<Step>): seq<Ticket> {
    if log == [] then []
    else
      var front, a := Entries(log[..|log| - 1]), log[|log| - 1];
      if a.PublishEntry? then front + [a.ticket] else front
  }

  function Numbers(entries: seq<Ticket>): set<nat> {
    set i | 0 <= i < |entries| :: entries[i].number
  }

  function FirstNumbers(n: nat): (numbers: set<nat>)
    ensures forall number :: number in numbers <==> 1 <= number <= n
  {
    if n == 0 then {} else FirstNumbers(n - 1) + {n}
  }

  // ---- Invariants ----

  predicate DistinctNumbers(entries: seq<Ticket>) {
    forall i, j :: 0 <= i < j < |entries| ==> entries[i].number != entries[j].number
  }

  /** Each number issued is that of one entry or held, and carries the index of its place. */
  predicate Inv(s: State, entries: seq<Ticket>) {
    && s.lastIdx == (if s.issued == 0 then 0 else NthIndex(s.issued))
    && (forall i :: 0 <= i < |entries| ==> entries[i].number > 0 && entries[i].index == NthIndex(entries[i].number))
    && (forall number :: number in s.held ==> number > 0 && s.held[number].index == NthIndex(number))
    && DistinctNumbers(entries)
    && Numbers(entries) !! s.held.Keys
    && Numbers(entries) + s.held.Keys == FirstNumbers(s.issued)
  }

  lemma NumbersSnoc(entries: seq<Ticket>, ticket: Ticket)
    ensures Numbers(entries + [ticket]) == Numbers(entries) + {ticket.number}
    ensures DistinctNumbers(entries + [ticket])
            <==> DistinctNumbers(entries) && ticket.number !in Numbers(entries)
  {
    var more := entries + [ticket];
    assert more[|entries|] == ticket;
    assert forall i :: 0 <= i < |entries| ==> more[i] == entries[i];
  }

  lemma {:induction false} Invariant(log: seq<Step>)
    requires Exec(log).Some?
    ensures Inv(Exec(log).value, Entries(log))
  {
    if log != [] {
      var front, a := log[..|log| - 1], log[|log| - 1];
      var s := Exec(front).value;
      Invariant(front);
      if a.TakeIndex? {
        TakeKeeps(s, Entries(front), a);
      } else {
        PublishKeeps(s, Entries(front), a);
      }
    }
  }

  lemma TakeKeeps(s: State, entries: seq<Ticket>, a: Step)
    requires Inv(s, entries) && a.TakeIndex? && Enabled(s, a)
    ensures Inv(Do(s, a), entries)
  {
    NthIndexSuccessor(s.issued);
    assert Do(s, a).held.Keys == s.held.Keys + {s.issued + 1};
  }

  lemma PublishKeeps(s: State, entries: seq<Ticket>, a: Step)
    requires Inv(s, entries) && a.PublishEntry? && Enabled(s, a)
    ensures Inv(Do(s, a), entries + [a.ticket])
  {
    NumbersSnoc(entries, a.ticket);
    assert Do(s, a).held.Keys == s.held.Keys - {a.ticket.number};
  }

  /** In every interleaving the entries carry different ones of the first indices; as long as
      no more than 2^64 - 1 were taken these are 1, 2, 3 and so on.
      When no thread is between taking an index and publishing, the entries carry all of the
      first indices, each once. */
  lemma EachIndexOnce(log: seq<Step>)
    requires Exec(log).Some?
    ensures var s, entries := Exec(log).value, Entries(log);
            && Numbers(entries) <= FirstNumbers(s.issued) && DistinctNumbers(entries)
            && (s.held == map[] ==> Numbers(entries) == FirstNumbers(s.issued))
            && (forall i :: 0 <= i < |entries| ==>
                  entries[i].number > 0 && entries[i].index == NthIndex(entries[i].number))
            && (s.issued <= 0xFFFF_FFFF_FFFF_FFFF ==>
                  && (forall i :: 0 <= i < |entries| ==> entries[i].index == entries[i].number)
                  && (forall i, j :: 0 <= i < j < |entries| ==> entries[i].index != entries[j].index))
  {
    Invariant(log);
    var s, entries := Exec(log).value, Entries(log);
    if s.issued <= 0xFFFF_FFFF_FFFF_FFFF {
      forall i | 0 <= i < |entries|
        ensures entries[i].index == entries[i].number
      {
        assert entries[i].number in Numbers(entries);
        FirstIndices(entries[i].number);
      }
    }
  }

  /** Any thread can always go on: one that holds an index can publish its entry, and any
      other can take one. */
  lemma ThreadsAdvance(log: seq<Step>, t: Thread)
    requires Exec(log).Some?
    ensures var s := Exec(log).value;
            Enabled(s, TakeIndex(t)) || exists ticket :: Enabled(s, PublishEntry(t, ticket))
  {
    var s := Exec(log).value;
    if !Enabled(s, TakeIndex(t)) {
      var number :| number in s.held && s.held[number].t == t;
      assert Enabled(s, PublishEntry(t, Ticket(number, s.held[number].index)));
    }
  }
}
