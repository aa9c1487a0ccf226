/** The cache of the rule set, filled by several dumps that together must show
    one generation of the kernel (src/cache.c). */
module Cache {
  import opened Netlink

  datatype Flag = Table | Chain | Set | Flowtable | Object | SetElem | Rule | Refresh | Update | Flushed

  datatype CachedSet = CachedSet(name: nat, elements: seq<Item>)
  datatype CachedChain = CachedChain(name: nat, rules: seq<Item>)
  datatype CachedTable = CachedTable(name: nat, sets: seq<CachedSet>, chains: seq<CachedChain>,
    flowtables: seq<Item>, objects: seq<Item>)

  function EmptyTable(name: nat): CachedTable
  {
    CachedTable(name, [], [], [], [])
  }

  /* ---- One rule set, as far as the flags ask for it ---- */

  function RulesOf(rules: seq<Item>, table: nat, chain: nat): seq<Item>
  {
    if rules == [] then []
    else
      var rest := RulesOf(rules[..|rules| - 1], table, chain);
      var x := rules[|rules| - 1];
      if x.table == table && x.owner == chain then rest + [x] else rest
  }

  function ChainNames(chains: seq<Item>, table: nat): seq<nat>
  {
    if chains == [] then []
    else
      var rest := ChainNames(chains[..|chains| - 1], table);
      var x := chains[|chains| - 1];
      if x.table == table then rest + [x.id] else rest
  }

  function SetsOf(h: History, g: nat, table: nat, flags: set<Flag>): seq<CachedSet>
  {
    var sets := h(g, Sets(table));
    seq(|sets|, i requires 0 <= i < |sets| =>
      CachedSet(sets[i].id, if SetElem in flags then h(g, Elements(table, sets[i].id)) else []))
  }

  function ChainsOf(h: History, g: nat, table: nat, flags: set<Flag>): seq<CachedChain>
  {
    var names := ChainNames(h(g, Chains), table);
    seq(|names|, i requires 0 <= i < |names| =>
      CachedChain(names[i], if Rule in flags then RulesOf(h(g, Rules), table, names[i]) else []))
  }

  function TableOf(h: History, g: nat, table: nat, flags: set<Flag>): CachedTable
  {
    CachedTable(table,
      if Set in flags then SetsOf(h, g, table, flags) else [],
      if Chain in flags then ChainsOf(h, g, table, flags) else [],
      if Flowtable in flags then h(g, Flowtables(table)) else [],
      if Object in flags then h(g, Objects(table)) else [])
  }

  /** The tables of generation g with all that the flags ask for. */
  function Snapshot(h: History, g: nat, flags: set<Flag>): seq<CachedTable>
  {
    var tables := h(g, Tables);
    if flags == {} then []
    else seq(|tables|, i requires 0 <= i < |tables| => TableOf(h, g, tables[i].id, flags))
  }

  /** The tables alone. */
  function EmptyTables(items: seq<Item>): (r: seq<CachedTable>)
    ensures |r| == |items|
  {
    seq(|items|, i requires 0 <= i < |items| => EmptyTable(items[i].id))
  }

  /** Of what the flags ask for nothing is in the tables. */
  ghost predicate NothingInside(h: History, g: nat, flags: set<Flag>)
  {
    forall i :: 0 <= i < |h(g, Tables)| ==> TableOf(h, g, h(g, Tables)[i].id, flags) == EmptyTable(h(g, Tables)[i].id)
  }

  lemma {:induction false} EmptySnapshot(h: History, g: nat, flags: set<Flag>)
    requires flags != {}
    ensures EmptyTables(h(g, Tables)) == Snapshot(h, g, flags) <==> NothingInside(h, g, flags)
  {
    hide TableOf;
    forall i | 0 <= i < |h(g, Tables)|
      ensures Snapshot(h, g, flags)[i] == TableOf(h, g, h(g, Tables)[i].id, flags)
      ensures EmptyTables(h(g, Tables))[i] == EmptyTable(h(g, Tables)[i].id)
    {
    }
  }

  /* ---- What is left when dumps fail ---- */

  /** A list that is the kernel's or, because its dump has failed, empty. */
  predicate WholeOrEmpty(part: seq<Item>, full: seq<Item>)
  {
    part == full || part == []
  }

  /** The sets are all there or none is, each with all of its elements or none. */
  ghost predicate SetsOrEmpty(part: seq<CachedSet>, full: seq<CachedSet>)
  {
    part == [] || (|part| == |full| && forall j :: 0 <= j < |part| ==>
      part[j].name == full[j].name && WholeOrEmpty(part[j].elements, full[j].elements))
  }

  ghost predicate ChainsOrEmpty(part: seq<CachedChain>, full: seq<CachedChain>)
  {
    part == [] || (|part| == |full| && forall j :: 0 <= j < |part| ==>
      part[j].name == full[j].name && WholeOrEmpty(part[j].rules, full[j].rules))
  }

  /** Every list of the table is the kernel's or empty. */
  ghost predicate TableOrEmpty(part: CachedTable, full: CachedTable)
  {
    && part.name == full.name && SetsOrEmpty(part.sets, full.sets) && ChainsOrEmpty(part.chains, full.chains)
    && WholeOrEmpty(part.flowtables, full.flowtables) && WholeOrEmpty(part.objects, full.objects)
  }

  ghost predicate TablesOrEmpty(part: seq<CachedTable>, full: seq<CachedTable>)
  {
    |part| == |full| && forall i :: 0 <= i < |part| ==> TableOrEmpty(part[i], full[i])
  }

  /** No list is empty that is not empty in the kernel. */
  ghost predicate NoneMissing(part: CachedTable, full: CachedTable)
  {
    && (part.sets == [] ==> full.sets == []) && (part.chains == [] ==> full.chains == [])
    && (part.flowtables == [] ==> full.flowtables == []) && (part.objects == [] ==> full.objects == [])
    && (forall j :: 0 <= j < |part.sets| && j < |full.sets| && part.sets[j].elements == [] ==> full.sets[j].elements == [])
    && (forall j :: 0 <= j < |part.chains| && j < |full.chains| && part.chains[j].rules == [] ==> full.chains[j].rules == [])
  }

  ghost predicate NothingMissing(part: seq<CachedTable>, full: seq<CachedTable>)
  {
    forall i :: 0 <= i < |part| && i < |full| ==> NoneMissing(part[i], full[i])
  }

  lemma {:induction false} NoneMissingExact(part: CachedTable, full: CachedTable)
    requires TableOrEmpty(part, full)
    ensures part == full <==> NoneMissing(part, full)
  {
    if NoneMissing(part, full) {
      assert part.sets == full.sets && part.chains == full.chains;
    }
  }

  /** Of a cache that dumps have failed for, exactly this makes it whole. */
  lemma {:induction false} NothingMissingExact(part: seq<CachedTable>, full: seq<CachedTable>)
    requires TablesOrEmpty(part, full)
    ensures part == full <==> NothingMissing(part, full)
  {
    hide TableOrEmpty;
    hide NoneMissing;
    forall i | 0 <= i < |part|
      ensures part[i] == full[i] <==> NoneMissing(part[i], full[i])
    {
      NoneMissingExact(part[i], full[i]);
    }
  }

  /** Tables with nothing in them are such a cache. */
  lemma {:induction false} EmptyTablesPart(h: History, g: nat, flags: set<Flag>)
    requires flags != {}
    ensures TablesOrEmpty(EmptyTables(h(g, Tables)), Snapshot(h, g, flags))
  {
  }

  /** In every rule set a rule is in a chain of it, and the chains of a table have
      different names. */
  ghost predicate Sound(h: History)
  {
    && (forall g: nat, x :: x in h(g, Rules) ==> x.owner in ChainNames(h(g, Chains), x.table))
    && (forall g: nat, t: nat, i, j :: 0 <= i < j < |ChainNames(h(g, Chains), t)| ==>
          ChainNames(h(g, Chains), t)[i] != ChainNames(h(g, Chains), t)[j])
  }

  /** Flags as they are combined: rules come with their chains. */
  predicate FlagsFit(flags: set<Flag>)
  {
    (Rule in flags ==> Chain in flags) && (SetElem in flags ==> Set in flags)
  }

  /* ---- Sorting rules into their chains ---- */

  method FindChain(chains: seq<CachedChain>, name: nat) returns (i: nat)
    requires exists j :: 0 <= j < |chains| && chains[j].name == name
    ensures i < |chains| && chains[i].name == name
  {
    i := 0;
    while chains[i].name != name
      invariant exists j :: i <= j < |chains| && chains[j].name == name
      decreases |chains| - i
    {
      i := i + 1;
    }
  }

  ghost predicate DifferentNames(chains: seq<CachedChain>)
  {
    forall i, j :: 0 <= i < j < |chains| ==> chains[i].name != chains[j].name
  }

  /** Every rule of the table goes to the end of its chain. */
  method AddRules(chains: seq<CachedChain>, rules: seq<Item>, table: nat) returns (r: seq<CachedChain>)
    requires DifferentNames(chains)
    requires forall x :: x in rules && x.table == table ==>
      exists j :: 0 <= j < |chains| && chains[j].name == x.owner
    ensures |r| == |chains|
    ensures forall j :: 0 <= j < |r| ==>
      r[j] == CachedChain(chains[j].name, chains[j].rules + RulesOf(rules, table, chains[j].name))
  {
    r := chains;
    var i := 0;
    while i < |rules|
      invariant 0 <= i <= |rules| && |r| == |chains|
      invariant forall j :: 0 <= j < |r| ==>
        r[j] == CachedChain(chains[j].name, chains[j].rules + RulesOf(rules[..i], table, chains[j].name))
    {
      var x := rules[i];
      assert rules[..i + 1][..i] == rules[..i];
      if x.table == table {
        assert x in rules;
        ghost var k :| 0 <= k < |chains| && chains[k].name == x.owner;
        assert r[k].name == x.owner;
        var c := FindChain(r, x.owner);
        r := r[c := CachedChain(r[c].name, r[c].rules + [x])];
      }
      i := i + 1;
    }
    assert rules[..i] == rules;
  }

  /* ---- Filling the cache ---- */

  /** The elements of every set of a table. */
  method InitElements(table: nat, sets: seq<CachedSet>, s: Socket, ghost first: nat)
    returns (r: seq<CachedSet>, err: Errno)
    requires s.Valid(first)
    modifies s`generation, s`schedule, s`failures
    ensures s.Later() && s.Valid(first)
    ensures err != Other && (err == Eintr ==> s.generation > s.lastRead || s.genid == 0)
    ensures |r| == |sets|
    ensures err == None && s.Steady() ==> forall j :: 0 <= j < |r| ==>
      r[j] == CachedSet(sets[j].name, s.history(s.lastRead, Elements(table, sets[j].name)))
    ensures err == None && s.Unmoved() ==> forall j :: 0 <= j < |r| ==>
      r[j].name == sets[j].name && WholeOrEmpty(r[j].elements, s.history(s.lastRead, Elements(table, sets[j].name)))
  {
    r, err := sets, None;
    var i := 0;
    while i < |sets|
      invariant 0 <= i <= |sets| == |r| && err == None
      invariant s.Later() && s.Valid(first)
      invariant forall j :: i <= j < |r| ==> r[j] == sets[j]
      invariant s.Steady() ==> forall j :: 0 <= j < i ==>
        r[j] == CachedSet(sets[j].name, s.history(s.lastRead, Elements(table, sets[j].name)))
      invariant s.Unmoved() ==> forall j :: 0 <= j < i ==>
        r[j].name == sets[j].name && WholeOrEmpty(r[j].elements, s.history(s.lastRead, Elements(table, sets[j].name)))
    {
      var elements;
      elements, err := s.List(Elements(table, r[i].name), first);
      if err == Eintr { return; }
      r := r[i := CachedSet(r[i].name, elements)];
      i := i + 1;
    }
  }

  /** The chains of a table out of the list of all chains. */
  function EmptyChains(chains: seq<Item>, table: nat): (r: seq<CachedChain>)
    ensures |r| == |ChainNames(chains, table)|
    ensures forall j :: 0 <= j < |r| ==> r[j] == CachedChain(ChainNames(chains, table)[j], [])
  {
    var names := ChainNames(chains, table);
    seq(|names|, i requires 0 <= i < |names| => CachedChain(names[i], []))
  }

  /** The rules of a table, each in its chain.  A rule that has passed the check
      of its generation always finds its chain. */
  method InitRules(table: nat, chains: seq<CachedChain>, ghost chainList: seq<Item>, s: Socket, ghost first: nat)
    returns (r: seq<CachedChain>, err: Errno)
    requires s.Valid(first) && Sound(s.history)
    requires chains == EmptyChains(chainList, table)
    requires s.generation == s.lastRead && s.genid != 0 ==> chainList == s.history(s.lastRead, Chains)
    modifies s`generation, s`schedule, s`failures
    ensures s.Later() && s.Valid(first)
    ensures err != Other && (err == Eintr ==> s.generation > s.lastRead || s.genid == 0)
    ensures err == None && s.Steady() ==> r == ChainsOf(s.history, s.lastRead, table, {Rule})
    ensures err == None && s.Unmoved() ==> ChainsOrEmpty(r, ChainsOf(s.history, s.lastRead, table, {Rule}))
  {
    hide RulesOf;
    hide ChainNames;
    var rules;
    rules, err := s.List(Rules, first);
    if rules != [] {
      assert chainList == s.history(s.lastRead, Chains);
      forall x | x in rules && x.table == table
        ensures exists j :: 0 <= j < |chains| && chains[j].name == x.owner
      {
        var names := ChainNames(chainList, table);
        assert x.owner in names;
        var j :| 0 <= j < |names| && names[j] == x.owner;
        assert chains[j].name == x.owner;
      }
      r := AddRules(chains, rules, table);
    } else {
      r := chains;
      NoRules(table);
    }
    assert forall j :: 0 <= j < |chains| ==>
      r[j] == CachedChain(chains[j].name, RulesOf(rules, table, chains[j].name));
  }

  lemma {:induction false} NoRules(table: nat)
    ensures forall chain: nat :: RulesOf([], table, chain) == []
  {
  }

  method InitSets(table: nat, flags: set<Flag>, s: Socket, ghost first: nat)
    returns (sets: seq<CachedSet>, err: Errno)
    requires s.Valid(first) && FlagsFit(flags)
    modifies s`generation, s`schedule, s`failures
    ensures s.Later() && s.Valid(first)
    ensures err != Other && (err == Eintr ==> s.generation > s.lastRead || s.genid == 0)
    ensures err == None && s.Steady() ==> sets == TableOf(s.history, s.lastRead, table, flags).sets
    ensures err == None && s.Unmoved() ==> SetsOrEmpty(sets, TableOf(s.history, s.lastRead, table, flags).sets)
  {
    sets, err := [], None;
    if Set in flags {
      var items;
      items, err := s.List(Sets(table), first);
      sets := seq(|items|, i requires 0 <= i < |items| => CachedSet(items[i].id, []));
      if err == Eintr { return; }
    }
    if SetElem in flags {
      sets, err := InitElements(table, sets, s, first);
    }
  }

  /** A list that is only asked for with a flag. */
  method ListIf(wanted: bool, q: Query, s: Socket, ghost first: nat) returns (items: seq<Item>, err: Errno)
    requires s.Valid(first)
    modifies s`generation, s`schedule, s`failures
    ensures s.Later() && s.Valid(first)
    ensures err != Other && (err == Eintr ==> s.generation > s.lastRead || s.genid == 0)
    ensures err == None && s.Steady() ==> items == if wanted then s.history(s.lastRead, q) else []
    ensures err == None && s.Unmoved() ==> WholeOrEmpty(items, if wanted then s.history(s.lastRead, q) else [])
  {
    items, err := [], None;
    if wanted {
      items, err := s.List(q, first);
    }
  }

  /** The chains before their rules are read; the flags tell only whether they are. */
  lemma {:induction false} ChainsWithout(h: History, g: nat, table: nat, flags: set<Flag>)
    ensures ChainsOf(h, g, table, flags) ==
      if Rule in flags then ChainsOf(h, g, table, {Rule}) else EmptyChains(h(g, Chains), table)
    ensures ChainsOrEmpty(EmptyChains(h(g, Chains), table), EmptyChains(h(g, Chains), table)) && ChainsOrEmpty([], [])
  {
    hide ChainNames;
    hide RulesOf;
  }

  /** cache_init_objects for one table. */
  method InitTable(name: nat, flags: set<Flag>, chainList: seq<Item>, s: Socket, ghost first: nat)
    returns (r: CachedTable, err: Errno)
    requires s.Valid(first) && Sound(s.history) && FlagsFit(flags)
    requires Chain in flags && s.generation == s.lastRead && s.genid != 0 ==>
      chainList == s.history(s.lastRead, Chains)
    modifies s`generation, s`schedule, s`failures
    ensures s.Later() && s.Valid(first)
    ensures err != Other && (err == Eintr ==> s.generation > s.lastRead || s.genid == 0)
    ensures err == None && s.Steady() ==> r == TableOf(s.history, s.lastRead, name, flags)
    ensures err == None && s.Unmoved() ==> TableOrEmpty(r, TableOf(s.history, s.lastRead, name, flags))
  {
    hide SetsOf;
    hide ChainsOf;
    hide EmptyChains;
    hide ChainsOrEmpty;
    hide SetsOrEmpty;
    hide WholeOrEmpty;
    hide Sound;
    ChainsWithout(s.history, s.lastRead, name, flags);
    var sets, chains, flowtables, objects;
    r := EmptyTable(name);
    sets, err := InitSets(name, flags, s, first);
    if err != None { return; }
    chains := if Chain in flags then EmptyChains(chainList, name) else [];
    flowtables, err := ListIf(Flowtable in flags, Flowtables(name), s, first);
    if err != None { return; }
    objects, err := ListIf(Object in flags, Objects(name), s, first);
    if err != None { return; }
    if Rule in flags {
      chains, err := InitRules(name, chains, chainList, s, first);
      if err != None { return; }
    }
    r := CachedTable(name, sets, chains, flowtables, objects);
  }

  /** The loop over the tables. */
  method InitTables(items: seq<Item>, flags: set<Flag>, chainList: seq<Item>, s: Socket, ghost first: nat)
    returns (r: seq<CachedTable>, err: Errno)
    requires s.Valid(first) && Sound(s.history) && FlagsFit(flags) && flags != {}
    requires s.generation == s.lastRead && s.genid != 0 ==> items == s.history(s.lastRead, Tables)
    requires Chain in flags && s.generation == s.lastRead && s.genid != 0 ==>
      chainList == s.history(s.lastRead, Chains)
    modifies s`generation, s`schedule, s`failures
    ensures s.Later() && s.Valid(first)
    ensures err != Other && (err == Eintr ==> s.generation > s.lastRead || s.genid == 0)
    ensures |r| == |items|
    ensures err == None && s.Steady() ==> r == Snapshot(s.history, s.lastRead, flags)
    ensures err == None && s.Unmoved() ==> TablesOrEmpty(r, Snapshot(s.history, s.lastRead, flags))
  {
    hide Sound;
    hide TableOf;
    r, err := EmptyTables(items), None;
    var i := 0;
    while i < |items|
      invariant 0 <= i <= |items| == |r| && err == None
      invariant s.Later() && s.Valid(first)
      invariant s.Steady() ==> forall j :: 0 <= j < i ==>
        r[j] == TableOf(s.history, s.lastRead, items[j].id, flags)
      invariant s.Unmoved() ==> forall j :: 0 <= j < i ==>
        TableOrEmpty(r[j], TableOf(s.history, s.lastRead, items[j].id, flags))
    {
      var t;
      t, err := InitTable(items[i].id, flags, chainList, s, first);
      if err != None { return; }
      r := r[i := t];
      i := i + 1;
    }
  }

  /** Two generations of the window with the same number are the same. */
  lemma {:induction false} SameNumber(a: nat, b: nat, first: nat)
    requires first <= a < first + GENERATIONS && first <= b < first + GENERATIONS
    requires a % GENERATIONS == b % GENERATIONS
    ensures a == b
  {
  }

  lemma {:induction false} NothingWanted(h: History, g: nat)
    ensures Snapshot(h, g, {}) == []
  {
  }

  /** The tables are read undisturbed, then the dump of the chains fails, and no commit
      comes before the message after that. */
  ghost predicate ChainsFail(h: History, g: nat, schedule: seq<Event>)
  {
    var n := |h(g, Tables)| + 1;
    && Quiet(schedule, n) && First(Rest(schedule, n)) == Event(0, true)
    && First(Rest(schedule, n + 1)).commits == 0
  }

  /** The same after the generation has been read. */
  ghost predicate ChainsWillFail(s: Socket)
    reads s
  {
    && !First(s.schedule).fails
    && ChainsFail(s.history, s.generation + First(s.schedule).commits, Rest(s.schedule, 1))
  }

  datatype Progress = Success | Replay | Failure

  class NftCache {
    var genid: nat
    var flags: set<Flag>
    var tables: seq<CachedTable>
    var seqnum: nat
    /** The generation the cache was filled at, and whether it was then taken to
        be empty because the whole rule set is to be flushed. */
    ghost var filledAt: nat
    ghost var flushed: bool

    /** Unless the socket has failed, a filled cache shows the one generation that
        it has the number of; if it has, what the cache shows of it is part of it. */
    ghost predicate Valid(s: Socket, first: nat)
      reads this, s
    {
      && s.Valid(first)
      && (genid == 0 ==> tables == [])
      && (s.failures == 0 && genid != 0 ==>
        && first <= filledAt <= s.generation && genid == filledAt % GENERATIONS
        && (flushed ==> flags <= {Update})
        && tables == if flushed then [] else Snapshot(s.history, filledAt, flags))
      && (genid != 0 ==> filledAt <= s.generation)
      && (genid != 0 && !flushed && filledAt == s.generation ==> Partial(s))
    }

    /** With failures, as long as there is no commit: every list of it is the kernel's
        or empty. */
    ghost predicate Partial(s: Socket)
      reads this, s
    {
      genid == filledAt % GENERATIONS && TablesOrEmpty(tables, Snapshot(s.history, filledAt, flags))
    }

    constructor ()
      ensures genid == 0 && tables == [] && flags == {}
    {
      genid, flags, tables, seqnum := 0, {}, [], 0;
    }

    method Release()
      modifies this`genid, this`flags, this`tables
      ensures genid == 0 && flags == {} && tables == []
    {
      tables := [];
      genid := 0;
      flags := {};
    }

    /** cache_update from the label skip on. */
    method Skip(g: nat, f: set<Flag>, ghost start: nat, ghost empty: bool)
      modifies this`genid, this`flags, this`filledAt, this`flushed
      ensures genid == g && flags == f && filledAt == start && flushed == empty
    {
      genid := g;
      flags := f;
      filledAt, flushed := start, empty;
    }

    /** cache_init after the dump of the tables.  A chain dump that fails otherwise
        than by EINTR ends it with success. */
    method InitWith(items: seq<Item>, wanted: set<Flag>, s: Socket, ghost first: nat) returns (err: Errno)
      requires s.Valid(first) && Sound(s.history) && FlagsFit(wanted) && wanted != {}
      requires s.Unmoved() ==> items == s.history(s.lastRead, Tables)
      modifies this`tables, s`generation, s`schedule, s`failures
      ensures s.Later() && s.Valid(first)
      ensures err != Other && (err == Eintr ==> s.generation > s.lastRead || s.genid == 0)
      ensures |tables| == |items|
      ensures err == None && s.Steady() ==> tables == Snapshot(s.history, s.lastRead, wanted)
      ensures err == None && s.Unmoved() ==> TablesOrEmpty(tables, Snapshot(s.history, s.lastRead, wanted))
      ensures Chain in wanted && First(old(s.schedule)).fails ==>
        err == None && tables == EmptyTables(items) && s.Next()
    {
      hide Sound;
      hide Snapshot;
      hide TablesOrEmpty;
      hide EmptyTables;
      hide NoZero;
      hide Commits;
      hide Rest;
      hide Quiet;
      var chainList := [];
      if Chain in wanted {
        chainList, err := s.Dump(Chains, first);
        if err != None {
          EmptyTablesPart(s.history, s.lastRead, wanted);
          tables := EmptyTables(items);
          err := if err == Eintr then Eintr else None;
          return;
        }
      }
      tables, err := InitTables(items, wanted, chainList, s, first);
    }

    /** cache_init. */
    method Init(wanted: set<Flag>, s: Socket, ghost first: nat) returns (err: Errno)
      requires s.Valid(first) && Sound(s.history) && FlagsFit(wanted) && tables == []
      modifies this`tables, s`generation, s`schedule, s`failures
      ensures s.Later() && s.Valid(first)
      ensures err == Eintr ==> s.generation > s.lastRead || s.genid == 0
      ensures err == Other ==> s.failures > old(s.failures)
      ensures err == None && s.genid == 0 ==> tables == []
      ensures err == None && s.Steady() ==> tables == Snapshot(s.history, s.lastRead, wanted)
      ensures err == None && s.Unmoved() ==> TablesOrEmpty(tables, Snapshot(s.history, s.lastRead, wanted))
      ensures Chain in wanted && old(s.genid == s.generation % GENERATIONS && ChainsFail(s.history, s.generation, s.schedule)) ==>
        && err == None && tables == EmptyTables(s.history(s.generation, Tables)) && s.generation == old(s.generation)
        && First(s.schedule).commits == 0
    {
      hide Sound;
      hide Snapshot;
      hide EmptyTables;
      hide NoZero;
      hide Commits;
      hide Rest;
      hide Quiet;
      RestTwice(s.schedule, |s.history(s.generation, Tables)| + 1, 1);
      NothingWanted(s.history, s.lastRead);
      if wanted == {} { return None; }
      var items;
      items, err := s.Dump(Tables, first);
      if err != None { return; }
      err := InitWith(items, wanted, s, first);
    }

    predicate IsComplete(wanted: set<Flag>)
      reads this
    {
      wanted <= flags
    }

    predicate NeedsRefresh()
      reads this
    {
      Refresh in flags
    }

    predicate IsUpdated(g: nat)
      reads this
    {
      g != 0 && g == genid
    }

    /** What success means: one generation of the kernel, current at some moment
        since it was began, or an empty cache for a flush of everything. */
    ghost predicate Shows(wanted: set<Flag>, s: Socket, began: nat)
      reads this, s
    {
      && began <= filledAt <= s.generation && genid == filledAt % GENERATIONS
      && if flushed then tables == [] && (Flushed in wanted || wanted <= {Update})
         else wanted <= flags && tables == Snapshot(s.history, filledAt, flags)
    }

    lemma ShowsFlushed(wanted: set<Flag>, s: Socket, began: nat)
      requires flushed && tables == [] && Flushed in wanted && began <= filledAt <= s.generation && genid == filledAt % GENERATIONS
      ensures Shows(wanted, s, began)
    {
    }

    lemma ShowsFilled(wanted: set<Flag>, s: Socket, began: nat)
      requires !flushed && flags == wanted && tables == Snapshot(s.history, filledAt, wanted)
      requires began <= filledAt <= s.generation && genid == filledAt % GENERATIONS
      ensures Shows(wanted, s, began)
    {
    }

    lemma ShowsEarlier(wanted: set<Flag>, s: Socket, later: nat, began: nat)
      requires Shows(wanted, s, later) && began <= later
      ensures Shows(wanted, s, began)
    {
    }

    /** The tables of the current generation, with nothing in them. */
    ghost predicate Bare(wanted: set<Flag>, s: Socket)
      reads this, s
    {
      && filledAt == s.generation && genid == filledAt % GENERATIONS && !flushed && flags == wanted
      && tables == EmptyTables(s.history(s.generation, Tables))
    }

    /** Then the cache shows what it should only if there was nothing to show. */
    lemma BareShows(wanted: set<Flag>, s: Socket, began: nat)
      requires Bare(wanted, s) && Chain in wanted && began <= s.generation
      ensures Shows(wanted, s, began) <==> NothingInside(s.history, s.generation, wanted)
    {
      hide Snapshot;
      hide NothingInside;
      EmptySnapshot(s.history, s.generation, wanted);
    }

    /** Whatever dumps have failed: the cache shows what it should if and only if
        nothing of the kernel is missing from it. */
    lemma PartialShows(wanted: set<Flag>, s: Socket, began: nat)
      requires Partial(s) && !flushed && filledAt == s.generation && wanted <= flags && began <= s.generation
      ensures Shows(wanted, s, began) <==> NothingMissing(tables, Snapshot(s.history, s.generation, flags))
    {
      hide Snapshot;
      hide TablesOrEmpty;
      hide NothingMissing;
      NothingMissingExact(tables, Snapshot(s.history, s.generation, flags));
    }

    /** The flags that a filled cache is left with. */
    function Stored(wanted: set<Flag>): set<Flag>
    {
      if Flushed in wanted then (if Update in wanted then {Update} else {}) else wanted
    }

    /** The cache was found to be current and is as it was. */
    twostate predicate Kept(wanted: set<Flag>)
      reads this
    {
      Untouched() && genid != 0 && wanted <= flags && Refresh !in flags
    }

    twostate predicate Untouched()
      reads this
    {
      && genid == old(genid) && flags == old(flags) && tables == old(tables)
      && filledAt == old(filledAt) && flushed == old(flushed)
    }

    /** From cache_init on: success only if the generation is still the same. */
    method Fill(wanted: set<Flag>, g: nat, s: Socket, ghost first: nat) returns (p: Progress)
      requires s.Valid(first) && Sound(s.history) && FlagsFit(wanted) && tables == []
      requires g == s.genid
      modifies this, s
      ensures s.Valid(first) && s.Later()
      ensures p == Failure ==> s.failures > old(s.failures)
      ensures p == Replay ==> |s.schedule| < |old(s.schedule)| || old(s.generation) > old(s.lastRead) || g == 0
      ensures p != Success ==> genid == 0 && tables == []
      ensures p == Success ==> genid == g && flags == wanted && !flushed && filledAt == old(s.lastRead)
      ensures p == Success && g == 0 ==> tables == []
      ensures p == Success && s.failures == 0 && g != 0 && old(s.lastRead) == old(s.generation) ==>
        tables == Snapshot(s.history, filledAt, wanted)
      ensures p == Success && g != 0 ==> filledAt <= s.generation && (filledAt == s.generation ==> Partial(s))
      ensures Chain in wanted && old(g == s.generation % GENERATIONS && ChainsFail(s.history, s.generation, s.schedule)) ==>
        && p == Success && tables == EmptyTables(s.history(s.generation, Tables))
        && s.generation == old(s.generation)
    {
      hide Snapshot;
      hide TablesOrEmpty;
      hide Commits;
      hide NoZero;
      hide Sound;
      ghost var start := s.lastRead;
      var err := Init(wanted, s, first);
      if err != None {
        Release();
        return if err == Eintr then Replay else Failure;
      }
      var stop := s.GenidGet(first);
      if g != stop {
        Release();
        return Replay;
      }
      Skip(g, wanted, start, false);
      if s.failures == 0 && g != 0 {
        SameNumber(start, s.lastRead, first);
      }
      return Success;
    }

    /** The first reading of a pass. */
    method ReadGeneration(s: Socket, ghost first: nat) returns (g: nat)
      requires s.Valid(first)
      modifies s
      ensures s.Later() && s.Valid(first)
      ensures g == s.genid
      ensures s.failures == old(s.failures) ==> g != 0 && s.lastRead == s.generation
      ensures s.failures > old(s.failures) ==> g == old(s.genid) && s.lastRead == old(s.lastRead)
      ensures old(ChainsWillFail(s)) ==>
        && g == s.generation % GENERATIONS && s.lastRead == s.generation
        && ChainsFail(s.history, s.generation, s.schedule)
    {
      hide ChainsFail;
      hide NoZero;
      hide Commits;
      g := s.GenidGet(first);
    }

    /** Whether the cache already shows the generation that was just read. */
    method IsCurrent(wanted: set<Flag>, g: nat, s: Socket, ghost first: nat) returns (b: bool)
      requires Valid(s, first) && g == s.genid && (s.failures == 0 ==> g != 0 && s.lastRead == s.generation)
      ensures b <==> wanted <= flags && Refresh !in flags && genid == g != 0
      ensures b && s.failures == 0 ==> Shows(wanted, s, s.generation)
    {
      hide Snapshot;
      hide Commits;
      hide NoZero;
      b := !NeedsRefresh() && IsComplete(wanted) && IsUpdated(g);
      if b && s.failures == 0 {
        SameNumber(filledAt, s.lastRead, first);
      }
    }

    /** The rest of a pass, when the cache is not current. */
    method Refill(wanted: set<Flag>, g: nat, s: Socket, ghost first: nat) returns (p: Progress)
      requires s.Valid(first) && Sound(s.history) && FlagsFit(wanted) && (genid == 0 ==> tables == [])
      requires g == s.genid && (s.failures == 0 ==> g != 0 && s.lastRead == s.generation)
      modifies this, s
      ensures Valid(s, first) && s.Later()
      ensures p == Failure ==> s.failures > 0
      ensures p == Replay ==> |s.schedule| < |old(s.schedule)| || old(s.generation) > old(s.lastRead) || g == 0
      ensures p == Success ==> flags == Stored(wanted)
      ensures p == Replay ==> genid == 0
      ensures p == Success && s.failures == 0 ==> Shows(wanted, s, old(s.generation))
      ensures old(ChainsFail(s.history, s.generation, s.schedule)) ==>
        old(s.lastRead == s.generation && g == s.generation % GENERATIONS) && Chain in wanted && Flushed !in wanted ==>
        p == Success && Bare(wanted, s)
    {
      hide Snapshot;
      hide Commits;
      hide NoZero;
      hide Sound;
      hide Shows;
      hide ChainsFail;
      ghost var start := s.lastRead;
      if genid != 0 {
        Release();
      }
      if Flushed in wanted {
        Skip(g, if Update in wanted then {Update} else {}, start, true);
        if s.failures == 0 {
          ShowsFlushed(wanted, s, old(s.generation));
        }
        return Success;
      }
      p := Fill(wanted, g, s, first);
      if p == Success && s.failures == 0 {
        ShowsFilled(wanted, s, old(s.generation));
      }
    }

    /** cache_update from the label replay on, once. */
    method Pass(wanted: set<Flag>, s: Socket, ghost first: nat) returns (p: Progress)
      requires Valid(s, first) && Sound(s.history) && FlagsFit(wanted)
      modifies this, s
      ensures Valid(s, first) && s.Later()
      ensures p == Failure ==> s.failures > 0
      ensures p == Replay ==> |s.schedule| < |old(s.schedule)|
      ensures p == Success ==> (Kept(wanted) && genid == s.genid) || flags == Stored(wanted)
      ensures p == Replay ==> genid == 0
      ensures p == Success && s.failures == 0 ==> Shows(wanted, s, old(s.generation))
      ensures old(genid == 0 && ChainsWillFail(s)) && Chain in wanted && Flushed !in wanted ==>
        p == Success && Bare(wanted, s)
    {
      hide Snapshot;
      hide Commits;
      hide NoZero;
      hide Sound;
      hide Shows;
      hide Bare;
      hide Stored;
      hide ChainsFail;
      hide ChainsWillFail;
      seqnum := seqnum + 1;
      var g := ReadGeneration(s, first);
      ghost var began := s.generation;
      var current := IsCurrent(wanted, g, s, first);
      if current {
        p := Success;
      } else {
        p := Refill(wanted, g, s, first);
      }
      if p == Success && s.failures == 0 {
        ShowsEarlier(wanted, s, began, old(s.generation));
      }
    }

    /** cache_update.  Whatever commits come in between, success means that the
        cache shows one generation of the kernel, which was current at some moment
        of the call and whose number is recorded; and the replays end.  After a
        failure it shows a part of one, all of it if nothing is missing. */
    method CacheUpdate(wanted: set<Flag>, s: Socket, ghost first: nat) returns (ok: bool)
      requires Valid(s, first) && Sound(s.history) && FlagsFit(wanted)
      modifies this, s
      ensures Valid(s, first) && s.Later()
      ensures !ok ==> s.failures > 0
      ensures ok ==> (Kept(wanted) && genid == s.genid) || flags == Stored(wanted)
      ensures ok && s.failures == 0 ==> Shows(wanted, s, old(s.generation))
      ensures ok && Flushed !in wanted && !flushed && genid != 0 && filledAt == s.generation ==>
        && TablesOrEmpty(tables, Snapshot(s.history, s.generation, flags))
        && (Shows(wanted, s, old(s.generation)) <==> NothingMissing(tables, Snapshot(s.history, s.generation, flags)))
      ensures old(genid == 0 && ChainsWillFail(s)) && Chain in wanted && Flushed !in wanted ==>
        ok && Bare(wanted, s)
    {
      hide Bare;
      hide Shows;
      hide ChainsWillFail;
      ghost var doomed := genid == 0 && ChainsWillFail(s) && Chain in wanted && Flushed !in wanted;
      hide Snapshot;
      hide Commits;
      hide Sound;
      var p := Replay;
      while p == Replay
        invariant Valid(s, first) && s.Later()
        invariant p == Failure ==> s.failures > 0
        invariant p == Replay ==> genid == 0 || Untouched()
        invariant p == Success ==> (Kept(wanted) && genid == s.genid) || flags == Stored(wanted)
        invariant p == Success && s.failures == 0 ==> Shows(wanted, s, old(s.generation))
        invariant doomed ==> if p == Replay then genid == 0 && ChainsWillFail(s) else p == Success && Bare(wanted, s)
        decreases |s.schedule|, p == Replay
      {
        ghost var began := s.generation;
        p := Pass(wanted, s, first);
        if p == Success && s.failures == 0 {
          ShowsEarlier(wanted, s, began, old(s.generation));
        }
      }
      ok := p == Success;
      if ok && Flushed !in wanted && !flushed && genid != 0 && filledAt == s.generation {
        PartialShows(wanted, s, old(s.generation));
      }
    }
  }

  /* ---- A failure that goes unnoticed ---- */

  /** One table with one chain, at every generation. */
  function OneChain(g: nat, q: Query): seq<Item>
  {
    match q
    case Tables => [Item(1, 0, 1)]
    case Chains => [Item(1, 0, 7)]
    case _ => []
  }

  lemma {:induction false} OneChainSound()
    ensures Sound(OneChain)
  {
    forall g: nat, t: nat
      ensures |ChainNames(OneChain(g, Chains), t)| <= 1
    {
      assert OneChain(g, Chains)[..0] == [];
    }
  }

  lemma {:induction false} OneChainInside(g: nat, flags: set<Flag>)
    requires Chain in flags
    ensures !NothingInside(OneChain, g, flags)
  {
    assert OneChain(g, Tables)[0].id == 1;
    assert OneChain(g, Chains)[..0] == [];
    assert ChainNames(OneChain(g, Chains), 1) == [7];
    assert |TableOf(OneChain, g, 1, flags).chains| == 1;
  }

  /** The generation, the one table, the end of the tables, and a failure. */
  function LosingEvents(): seq<Event>
  {
    [Event(0, false), Event(0, false), Event(0, false), Event(0, true)]
  }

  lemma {:induction false} EventsLose()
    ensures var e := LosingEvents();
      Commits(e) == 0 && First(e) == Event(0, false) && ChainsFail(OneChain, 1, Rest(e, 1))
  {
    var e := LosingEvents();
    assert e[1..] == [Event(0, false), Event(0, false), Event(0, true)] && e[1..][1..] == [Event(0, false), Event(0, true)];
    assert e[1..][1..][1..] == [Event(0, true)] && e[1..][1..][1..][1..] == [];
    assert |OneChain(1, Tables)| == 1;
  }

  /** The socket fails once, when the chains are read: the cache is said to be up to
      date, and the chain is not in it. */
  method ChainsLost() returns (cache: NftCache, s: Socket, ok: bool)
    ensures s.history == OneChain
    ensures ok && !cache.Shows({Table, Chain}, s, 1)
  {
    hide Sound;
    hide NothingInside;
    hide ChainsFail;
    hide Commits;
    hide LosingEvents;
    hide Snapshot;
    s := new Socket(OneChain, 1, LosingEvents());
    cache := new NftCache();
    OneChainSound();
    EventsLose();
    ok := cache.CacheUpdate({Table, Chain}, s, 1);
    OneChainInside(s.generation, {Table, Chain});
    cache.BareShows({Table, Chain}, s, 1);
  }
}
