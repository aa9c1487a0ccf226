/** The kernel side of the cache: a rule set that changes with every commit, and
    dumps of it message by message, each one checked against the generation that
    was read last (src/mnl.c). */
module Netlink {

  /** What a dump asks for. */
  datatype Query =
    | Tables
    | Chains
    | Rules
    | Sets(table: nat)
    | Elements(table: nat, setName: nat)
    | Flowtables(table: nat)
    | Objects(table: nat)

  /** One message of a dump: an object, the table it is in, and the set or chain
      it belongs to. */
  datatype Item = Item(table: nat, owner: nat, id: nat)

  /** What happens before the next message: commits by others, and perhaps a
      failure of the socket. */
  datatype Event = Event(commits: nat, fails: bool)

  datatype Errno = None | Eintr | Other

  /** What is read next: nothing, the end of the answer, a message of another
      generation, or an object. */
  datatype Message = Broken | Done | Stale | Given(item: Item)

  function Commits(schedule: seq<Event>): nat
  {
    if schedule == [] then 0 else schedule[0].commits + Commits(schedule[1..])
  }

  /** What happens before the next message, and what is left to happen after n of them. */
  function First(schedule: seq<Event>): Event
  {
    if schedule == [] then Event(0, false) else schedule[0]
  }

  function Rest(schedule: seq<Event>, n: nat): seq<Event>
  {
    if n <= |schedule| then schedule[n..] else []
  }

  /** Nothing happens before the next n messages. */
  predicate Quiet(schedule: seq<Event>, n: nat)
  {
    forall i :: 0 <= i < n && i < |schedule| ==> schedule[i] == Event(0, false)
  }

  lemma {:induction false} RestTwice(schedule: seq<Event>, m: nat, n: nat)
    ensures Rest(Rest(schedule, m), n) == Rest(schedule, m + n) && Rest(schedule, 0) == schedule
  {
  }

  lemma {:induction false} QuietNext(schedule: seq<Event>, n: nat)
    requires Quiet(schedule, n) && n > 0
    ensures First(schedule) == Event(0, false) && Quiet(Rest(schedule, 1), n - 1)
  {
  }

  /** Generation numbers as messages carry them. */
  const GENERATIONS: nat := 0x1_0000

  /** What the kernel answers to a query at each generation. */
  type History = (nat, Query) -> seq<Item>

  ghost predicate NoZero(first: nat, last: nat)
  {
    forall g: nat :: first <= g <= last ==> g % GENERATIONS != 0
  }

  class Socket {
    const history: History
    /** The kernel's own count of commits, and what is still to happen. */
    var generation: nat
    var schedule: seq<Event>
    /** The static variable nft_genid, zero before the first reading. */
    var genid: nat
    /** The generation that was read last, and how often the socket has failed. */
    ghost var lastRead: nat
    ghost var failures: nat

    constructor (h: History, g: nat, events: seq<Event>)
      ensures history == h && generation == g && schedule == events && genid == 0 && failures == 0
    {
      history, generation, schedule, genid := h, g, events, 0;
      lastRead, failures := 0, 0;
    }

    /** The commits so far and to come. */
    ghost function Total(): nat
      reads this`generation, this`schedule
    {
      generation + Commits(schedule)
    }

    /** From the generation first to the last one, no number as messages carry it
        is zero or comes twice; genid is the number of one of these generations. */
    ghost predicate Valid(first: nat)
      reads this`generation, this`schedule, this`genid, this`lastRead
    {
      && Total() < first + GENERATIONS
      && NoZero(first, Total())
      && first <= generation
      && (genid != 0 ==> genid == lastRead % GENERATIONS && first <= lastRead <= generation)
    }

    /** No commit since the generation was read. */
    ghost predicate Unmoved()
      reads this`generation, this`genid, this`lastRead
    {
      generation == lastRead && genid != 0
    }

    /** And no failure ever. */
    ghost predicate Steady()
      reads this`generation, this`genid, this`lastRead, this`failures
    {
      Unmoved() && failures == 0
    }

    /** From one state to a later one. */
    twostate predicate Later()
      reads this`generation, this`schedule, this`failures
    {
      && old(generation) <= generation && Total() == old(Total())
      && |schedule| <= |old(schedule)| && old(failures) <= failures
      && (generation > old(generation) || failures > old(failures) ==> |schedule| < |old(schedule)|)
    }

    /** One message further. */
    twostate predicate Next()
      reads this`generation, this`schedule, this`failures
    {
      && schedule == Rest(old(schedule), 1)
      && generation == old(generation) + First(old(schedule)).commits
      && failures == old(failures) + if First(old(schedule)).fails then 1 else 0
    }

    method Receive() returns (fails: bool)
      modifies this`generation, this`schedule, this`failures
      ensures Later() && Next()
      ensures fails <==> failures > old(failures)
      ensures |old(schedule)| > 0 ==> |schedule| < |old(schedule)|
    {
      fails := false;
      if schedule != [] {
        generation := generation + schedule[0].commits;
        if schedule[0].fails {
          fails := true;
          failures := failures + 1;
        }
        schedule := schedule[1..];
      }
    }

    /** mnl_genid_get: on failure the number of last time is returned again. */
    method GenidGet(ghost first: nat) returns (g: nat)
      requires Valid(first)
      modifies this
      ensures Later() && Next() && Valid(first)
      ensures g == genid
      ensures failures == old(failures) ==> genid != 0 && lastRead == generation
      ensures failures > old(failures) ==> genid == old(genid) && lastRead == old(lastRead)
    {
      var fails := Receive();
      if !fails {
        genid := generation % GENERATIONS;
        lastRead := generation;
      }
      g := genid;
    }

    /** After i messages: the answer can be read to its end without a commit or a
        failure. */
    ghost predicate Undisturbed(q: Query, i: nat)
      reads this`generation, this`schedule, this`genid
    {
      && genid == generation % GENERATIONS && i <= |history(generation, q)|
      && Quiet(schedule, |history(generation, q)| + 1 - i)
    }

    /** The message after i of them, with the check of its generation. */
    method Read(q: Query, i: nat, ghost first: nat) returns (m: Message)
      requires Valid(first)
      modifies this`generation, this`schedule, this`failures
      ensures Later() && Next() && Valid(first)
      ensures |old(schedule)| > 0 ==> |schedule| < |old(schedule)|
      ensures m.Broken? <==> First(old(schedule)).fails
      ensures !m.Broken? ==> (m.Done? <==> |history(generation, q)| <= i)
      ensures m.Stale? ==> genid != generation % GENERATIONS && (generation > lastRead || genid == 0)
      ensures m.Given? ==> generation == lastRead && genid != 0 && m.item == history(generation, q)[i]
      ensures old(Undisturbed(q, i)) ==>
        && (m.Done? || m.Given?) && generation == old(generation)
        && (if m.Given? then Undisturbed(q, i + 1) else i == |history(generation, q)|)
    {
      hide Commits;
      hide Rest;
      hide Quiet;
      if Undisturbed(q, i) {
        QuietNext(schedule, |history(generation, q)| + 1 - i);
      }
      var fails := Receive();
      if fails { return Broken; }
      var answer := history(generation, q);
      if i >= |answer| { return Done; }
      m := if genid != generation % GENERATIONS then Stale else Given(answer[i]);
    }

    /** A dump: the messages are read one after the other, commits may come in
        between, a message of another generation is dropped and remembered. */
    method Dump(q: Query, ghost first: nat) returns (items: seq<Item>, err: Errno)
      requires Valid(first)
      modifies this`generation, this`schedule, this`failures
      ensures Later() && Valid(first)
      ensures err == Other ==> failures > old(failures)
      ensures failures > old(failures) ==> err != None
      ensures First(old(schedule)).fails ==> err == Other && items == [] && Next()
      ensures old(Undisturbed(q, 0)) ==>
        && err == None && items == history(generation, q) && failures == old(failures)
        && generation == old(generation) && schedule == Rest(old(schedule), |items| + 1)
      ensures err == Eintr ==> generation > lastRead || genid == 0
      ensures err == None && generation == lastRead && genid != 0 ==> items == history(lastRead, q)
      ensures items != [] ==> old(generation) == lastRead && genid != 0
      ensures forall x :: x in items ==> x in history(lastRead, q)
    {
      hide NoZero;
      hide Total;
      hide Rest;
      hide Undisturbed;
      items, err := [], None;
      var i, eintr := 0, false;
      RestTwice(schedule, 0, 0);
      ghost var calm := Undisturbed(q, 0);
      while true
        invariant Later() && Valid(first) && failures == old(failures)
        invariant eintr ==> generation > lastRead || genid == 0
        invariant !eintr && generation == lastRead && genid != 0 ==>
          i <= |history(lastRead, q)| && items == history(lastRead, q)[..i]
        invariant items != [] ==> old(generation) == lastRead && genid != 0
        invariant forall x :: x in items ==> x in history(lastRead, q)
        invariant First(old(schedule)).fails ==>
          i == 0 && !eintr && items == [] && schedule == old(schedule) && generation == old(generation)
        invariant calm ==> !eintr && generation == old(generation) && schedule == Rest(old(schedule), i)
        invariant calm ==> Undisturbed(q, i) && i <= |history(generation, q)| && items == history(generation, q)[..i]
        decreases |schedule|, if schedule == [] && i < |history(generation, q)| then |history(generation, q)| - i else 0
      {
        RestTwice(old(schedule), i, 1);
        var m := Read(q, i, first);
        if m.Broken? {
          err := Other;
          break;
        }
        if m.Done? { break; }
        if m.Stale? {
          eintr := true;
        } else {
          items := items + [m.item];
        }
        i := i + 1;
      }
      if eintr {
        err := Eintr;
      }
    }

    /** The list functions of netlink.c: every failure but EINTR gives an empty
        list and success. */
    method List(q: Query, ghost first: nat) returns (items: seq<Item>, err: Errno)
      requires Valid(first)
      modifies this`generation, this`schedule, this`failures
      ensures Later() && Valid(first)
      ensures err != Other
      ensures failures > old(failures) && err != Eintr ==> items == [] && err == None
      ensures err == Eintr ==> items == [] && (generation > lastRead || genid == 0)
      ensures err == None && Steady() ==> items == history(lastRead, q)
      ensures err == None && Unmoved() ==> items == history(lastRead, q) || (items == [] && failures > old(failures))
      ensures items != [] ==> old(generation) == lastRead && genid != 0
      ensures forall x :: x in items ==> x in history(lastRead, q)
    {
      items, err := Dump(q, first);
      if err != None {
        items := [];
      }
      if err == Other {
        err := None;
      }
    }
  }
}
