/** The last-write-wins store: versioned entries, tombstones, a Lamport-style clock
    and an incrementally maintained count of live keys. */
module LwwStore {
  import opened Strings

  datatype Entry = Entry(value: Str, version: Int64, origin: Str, deleted: bool)

  datatype Keyed = Keyed(key: Str, entry: Entry)

  // ----- the order on entries -----

  /** Version first, then origin, then tombstone over value, then value. */
  predicate Newer(a: Entry, b: Entry) {
    if a.version != b.version then a.version > b.version
    else if a.origin != b.origin then Less(b.origin, a.origin)
    else if a.deleted != b.deleted then a.deleted
    else Less(b.value, a.value)
  }

  predicate AtLeast(a: Entry, b: Entry) {
    a == b || Newer(a, b)
  }

  /** Exactly one of equal, newer, older. */
  lemma NewerTrichotomy(a: Entry, b: Entry)
    ensures !(Newer(a, b) && Newer(b, a))
    ensures !(Newer(a, b) && a == b)
    ensures Newer(a, b) || a == b || Newer(b, a)
  {
    LessTrichotomy(a.origin, b.origin);
    LessTrichotomy(a.value, b.value);
  }

  lemma NewerTransitive(a: Entry, b: Entry, c: Entry)
    requires Newer(a, b) && Newer(b, c)
    ensures Newer(a, c)
  {
    if a.version == b.version == c.version {
      if a.origin == b.origin == c.origin {
        if a.deleted == b.deleted == c.deleted {
          LessTransitive(c.value, b.value, a.value);
        }
      } else if a.origin != b.origin && b.origin != c.origin {
        LessTransitive(c.origin, b.origin, a.origin);
        LessTrichotomy(c.origin, a.origin);
      }
    }
  }

  lemma AtLeastTransitive(a: Entry, b: Entry, c: Entry)
    requires AtLeast(a, b) && AtLeast(b, c)
    ensures AtLeast(a, c)
  {
    if Newer(a, b) && Newer(b, c) {
      NewerTransitive(a, b, c);
    }
  }

  lemma AtLeastAntisymmetric(a: Entry, b: Entry)
    requires AtLeast(a, b) && AtLeast(b, a)
    ensures a == b
  {
    NewerTrichotomy(a, b);
  }

  // ----- states and operations -----

  datatype State = State(tree: map<Str, Entry>, clock: Int64, length: int)

  const EMPTY: State := State(map[], 0, 0)

  ghost function Live(tree: map<Str, Entry>): set<Str> {
    set k | k in tree && !tree[k].deleted
  }

  /** The clock bounds every stored version and is itself stored (or still 0);
      `length` counts the live keys. */
  ghost predicate Valid(s: State) {
    && (forall k :: k in s.tree ==> s.tree[k].version <= s.clock)
    && ClockAttained(s)
    && s.length == |Live(s.tree)|
  }

  ghost predicate ClockAttained(s: State) {
    s.clock == 0 || exists k :: k in s.tree && s.tree[k].version == s.clock
  }

  /** `clock.Add(1)` on an int64. */
  function Tick(clock: Int64): Int64 {
    if clock == MAX_INT64 then MIN_INT64 else clock + 1
  }

  function SetFrom(s: State, key: Str, value: Str, origin: Str): (State, Entry) {
    var clock := Tick(s.clock);
    var entry := Entry(value, clock, origin, false);
    if key !in s.tree || Newer(entry, s.tree[key]) then
      var grow := if key !in s.tree || s.tree[key].deleted then 1 else 0;
      (State(s.tree[key := entry], clock, s.length + grow), entry)
    else
      (s.(clock := clock), entry)
  }

  function SetWithVersion(s: State, key: Str, entry: Entry): (State, bool) {
    if key in s.tree && !Newer(entry, s.tree[key]) then
      (s, false)
    else
      var length :=
        if !entry.deleted && (key !in s.tree || s.tree[key].deleted) then s.length + 1
        else if key in s.tree && !s.tree[key].deleted && entry.deleted then s.length - 1
        else s.length;
      var clock := if entry.version > s.clock then entry.version else s.clock;
      (State(s.tree[key := entry], clock, length), true)
  }

  function Merge(s: State, x: Keyed): State {
    SetWithVersion(s, x.key, x.entry).0
  }

  function MergeAll(s: State, xs: seq<Keyed>): State {
    if xs == [] then s else Merge(MergeAll(s, xs[..|xs| - 1]), xs[|xs| - 1])
  }

  datatype DelResult = DelResult(state: State, n: int, tombstones: map<Str, Entry>)

  /** One turn of the loop in `Del`: a repeated key is skipped, any other key is overwritten
      without comparing. */
  function DelKey(d: DelResult, origin: Str, key: Str): DelResult {
    if key in d.tombstones then d
    else
      var s := d.state;
      var hit := if key in s.tree && !s.tree[key].deleted then 1 else 0;
      var entry := Entry([], Tick(s.clock), origin, true);
      DelResult(
        State(s.tree[key := entry], Tick(s.clock), s.length - hit),
        d.n + hit,
        d.tombstones[key := entry])
  }

  function Del(s: State, origin: Str, keys: seq<Str>): DelResult {
    if keys == [] then DelResult(s, 0, map[])
    else DelKey(Del(s, origin, keys[..|keys| - 1]), origin, keys[|keys| - 1])
  }

  function Get(s: State, key: Str): Option<(Str, Int64)> {
    if key !in s.tree || s.tree[key].deleted then None
    else Some((s.tree[key].value, s.tree[key].version))
  }

  // ----- one operation -----

  lemma LiveUpdate(tree: map<Str, Entry>, key: Str, e: Entry)
    ensures Live(tree[key := e]) == (if e.deleted then Live(tree) - {key} else Live(tree) + {key})
  {
  }

  lemma WithOne(live: set<Str>, key: Str)
    ensures |live + {key}| == |live| + (if key in live then 0 else 1)
  {
    if key in live {
      assert live + {key} == live;
    }
  }

  lemma WithoutOne(live: set<Str>, key: Str)
    ensures |live - {key}| == |live| - (if key in live then 1 else 0)
  {
    if key !in live {
      assert live - {key} == live;
    }
  }

  /** One if the key is live, else zero. */
  function LiveAt(tree: map<Str, Entry>, key: Str): int {
    if key in tree && !tree[key].deleted then 1 else 0
  }

  /** An update of one key moves the live count by what it changes at that key. */
  lemma LiveCountUpdate(tree: map<Str, Entry>, key: Str, e: Entry)
    ensures |Live(tree[key := e])| == |Live(tree)| - LiveAt(tree, key) + (if e.deleted then 0 else 1)
  {
    LiveUpdate(tree, key, e);
    if e.deleted {
      WithoutOne(Live(tree), key);
    } else {
      WithOne(Live(tree), key);
    }
  }

  lemma SetFromInstalls(s: State, key: Str, value: Str, origin: Str)
    requires Valid(s) && s.clock < MAX_INT64
    ensures var (t, e) := SetFrom(s, key, value, origin);
            && Valid(t)
            && t.tree == s.tree[key := e]
            && e.value == value && e.origin == origin && !e.deleted
            && e.version == t.clock == s.clock + 1
            && (forall k :: k in s.tree ==> Newer(e, s.tree[k]))
  {
    var (t, e) := SetFrom(s, key, value, origin);
    LiveCountUpdate(s.tree, key, e);
    assert t.tree[key].version == t.clock;
  }

  /** A local write is newer than everything stored exactly when the clock has not run out. */
  lemma SetFromIsNewestIff(s: State, key: Str, value: Str, origin: Str)
    requires Valid(s)
    ensures (forall k :: k in s.tree ==> Newer(SetFrom(s, key, value, origin).1, s.tree[k]))
            <==> s.clock < MAX_INT64
  {
    if s.clock < MAX_INT64 {
      SetFromInstalls(s, key, value, origin);
    } else {
      var k :| k in s.tree && s.tree[k].version == s.clock;
      assert !Newer(SetFrom(s, key, value, origin).1, s.tree[k]);
    }
  }

  lemma SetWithVersionJoins(s: State, key: Str, e: Entry)
    requires Valid(s)
    ensures var (t, took) := SetWithVersion(s, key, e);
            && Valid(t)
            && t.tree.Keys == s.tree.Keys + {key}
            && (forall k :: k in s.tree && k != key ==> t.tree[k] == s.tree[k])
            && AtLeast(t.tree[key], e)
            && (key in s.tree ==> AtLeast(t.tree[key], s.tree[key]))
            && (took ==> t.tree[key] == e)
            && (!took ==> t == s)
            && (took <==> key !in s.tree || Newer(e, s.tree[key]))
            && t.clock == (if e.version > s.clock then e.version else s.clock)
  {
    var (t, took) := SetWithVersion(s, key, e);
    MergeKeepsCount(s, key, e);
    MergeKeepsClock(s, key, e);
    if !took {
      NewerTrichotomy(e, s.tree[key]);
    }
  }

  lemma MergeKeepsCount(s: State, key: Str, e: Entry)
    requires s.length == |Live(s.tree)|
    ensures var t := SetWithVersion(s, key, e).0;
            t.length == |Live(t.tree)|
  {
    if SetWithVersion(s, key, e).1 {
      LiveCountUpdate(s.tree, key, e);
    }
  }

  lemma MergeKeepsClock(s: State, key: Str, e: Entry)
    requires Valid(s)
    ensures var t := SetWithVersion(s, key, e).0;
            ClockAttained(t) && forall k :: k in t.tree ==> t.tree[k].version <= t.clock
  {
    var (t, took) := SetWithVersion(s, key, e);
    if took && e.version <= s.clock && s.clock != 0 {
      var k :| k in s.tree && s.tree[k].version == s.clock;
      assert t.tree[k].version == t.clock;
    } else if took {
      assert t.tree[key].version == e.version;
    }
  }

  // ----- Del -----

  /** What `Del` has done once the distinct keys `done` are processed. */
  ghost predicate Deleted(s: State, origin: Str, done: set<Str>, d: DelResult) {
    && d.tombstones.Keys == done
    && d.state.tree.Keys == s.tree.Keys + done
    && (forall k :: k in done ==> d.state.tree[k] == d.tombstones[k] && IsTombstone(d.tombstones[k], origin))
    && (forall k :: k in s.tree && k !in done ==> d.state.tree[k] == s.tree[k])
  }

  predicate IsTombstone(e: Entry, origin: Str) {
    e.deleted && e.origin == origin && e.value == []
  }

  ghost predicate Counted(s: State, done: set<Str>, d: DelResult) {
    && d.n == |Live(s.tree) * done|
    && d.state.length == |Live(d.state.tree)|
    && Live(d.state.tree) == Live(s.tree) - done
  }

  lemma DelKeyLength(d: DelResult, origin: Str, key: Str)
    requires key !in d.tombstones && d.state.length == |Live(d.state.tree)|
    ensures var t := DelKey(d, origin, key).state;
            t.length == |Live(t.tree)| && Live(t.tree) == Live(d.state.tree) - {key}
  {
    var e := Entry([], Tick(d.state.clock), origin, true);
    LiveUpdate(d.state.tree, key, e);
    LiveCountUpdate(d.state.tree, key, e);
  }

  lemma DelKeyCounts(s: State, origin: Str, done: set<Str>, d: DelResult, key: Str)
    requires d.tombstones.Keys == done && Counted(s, done, d)
    ensures Counted(s, done + {key}, DelKey(d, origin, key))
  {
    if key in d.tombstones {
      assert done + {key} == done;
    } else {
      DelKeyLength(d, origin, key);
      DelKeyHits(Live(s.tree), done, d, origin, key);
      DropOneMore(Live(s.tree), done, key);
    }
  }

  lemma DelKeyHits(live: set<Str>, done: set<Str>, d: DelResult, origin: Str, key: Str)
    requires key !in done && d.tombstones.Keys == done
    requires Live(d.state.tree) == live - done && d.n == |live * done|
    ensures DelKey(d, origin, key).n == |live * (done + {key})|
  {
    assert key in live <==> key in Live(d.state.tree);
    CountOneMore(live, done, key);
  }

  lemma CountOneMore(live: set<Str>, done: set<Str>, key: Str)
    requires key !in done
    ensures |live * (done + {key})| == |live * done| + (if key in live then 1 else 0)
  {
    if key in live {
      assert live * (done + {key}) == live * done + {key};
    } else {
      assert live * (done + {key}) == live * done;
    }
  }

  lemma DropOneMore(live: set<Str>, done: set<Str>, key: Str)
    ensures (live - done) - {key} == live - (done + {key})
  {
  }

  lemma DelKeyDeletes(s: State, origin: Str, done: set<Str>, d: DelResult, key: Str)
    requires Deleted(s, origin, done, d)
    ensures Deleted(s, origin, done + {key}, DelKey(d, origin, key))
  {
  }

  /** `Del` tombstones exactly the keys it was given and leaves the others alone. */
  lemma {:induction false} DelDeletes(s: State, origin: Str, keys: seq<Str>)
    ensures Deleted(s, origin, Elements(keys), Del(s, origin, keys))
  {
    if keys == [] {
      assert Elements(keys) == {};
    } else {
      var init, key := keys[..|keys| - 1], keys[|keys| - 1];
      DelDeletes(s, origin, init);
      ElementsSnoc(keys);
      DelKeyDeletes(s, origin, Elements(init), Del(s, origin, init), key);
    }
  }

  /** `Del` reports the distinct live keys among its arguments and keeps the live count,
      whatever the clock does. */
  lemma {:induction false} DelCounts(s: State, origin: Str, keys: seq<Str>)
    requires s.length == |Live(s.tree)|
    ensures Counted(s, Elements(keys), Del(s, origin, keys))
  {
    if keys == [] {
      assert Elements(keys) == {};
    } else {
      var init, key := keys[..|keys| - 1], keys[|keys| - 1];
      DelCounts(s, origin, init);
      DelDeletes(s, origin, init);
      ElementsSnoc(keys);
      DelKeyCounts(s, origin, Elements(init), Del(s, origin, init), key);
    }
  }

  /** The tombstones carry the versions just above the clock, each a different one. */
  ghost predicate Stamped(s: State, d: DelResult) {
    && d.state.clock == s.clock + |d.tombstones|
    && (forall k :: k in d.tombstones ==> s.clock < d.tombstones[k].version <= d.state.clock)
    && (forall j, k :: j in d.tombstones && k in d.tombstones && j != k
          ==> d.tombstones[j].version != d.tombstones[k].version)
    && (d.tombstones == map[] || exists k :: k in d.tombstones && d.tombstones[k].version == d.state.clock)
  }

  lemma DelKeyStamps(s: State, origin: Str, d: DelResult, key: Str)
    requires Stamped(s, d)
    requires key !in d.tombstones ==> d.state.clock < MAX_INT64
    ensures Stamped(s, DelKey(d, origin, key))
  {
    if key !in d.tombstones {
      var e := DelKey(d, origin, key);
      assert e.tombstones.Keys == d.tombstones.Keys + {key};
      assert e.tombstones[key].version == e.state.clock;
    }
  }

  lemma {:induction false} DelStamps(s: State, origin: Str, keys: seq<Str>)
    requires s.clock + |Elements(keys)| <= MAX_INT64
    ensures Stamped(s, Del(s, origin, keys))
  {
    if keys != [] {
      var init, key := keys[..|keys| - 1], keys[|keys| - 1];
      ElementsSnoc(keys);
      assert key in Elements(init) ==> Elements(keys) == Elements(init);
      DelStamps(s, origin, init);
      DelDeletes(s, origin, init);
      assert |Del(s, origin, init).tombstones| == |Elements(init)|;
      DelKeyStamps(s, origin, Del(s, origin, init), key);
    }
  }

  /** With room in the clock, `Del` keeps the store valid and every tombstone is strictly newer
      than everything stored before the call. */
  lemma DelInstalls(s: State, origin: Str, keys: seq<Str>)
    requires Valid(s) && s.clock + |Elements(keys)| <= MAX_INT64
    ensures Valid(Del(s, origin, keys).state)
    ensures Stamped(s, Del(s, origin, keys))
    ensures Deleted(s, origin, Elements(keys), Del(s, origin, keys))
    ensures Advances(s, Del(s, origin, keys).state)
  {
    DelCounts(s, origin, keys);
    DelDeletes(s, origin, keys);
    DelStamps(s, origin, keys);
    StampedIsValid(s, origin, Elements(keys), Del(s, origin, keys));
    StampedAdvances(s, origin, Elements(keys), Del(s, origin, keys));
  }

  lemma StampedAdvances(s: State, origin: Str, done: set<Str>, d: DelResult)
    requires Valid(s) && Deleted(s, origin, done, d) && Stamped(s, d)
    ensures Advances(s, d.state)
  {
    forall k | k in s.tree ensures k in d.state.tree && AtLeast(d.state.tree[k], s.tree[k]) {
      assert k in done ==> d.state.tree[k].version > s.tree[k].version;
    }
  }

  lemma StampedIsValid(s: State, origin: Str, done: set<Str>, d: DelResult)
    requires Valid(s) && Deleted(s, origin, done, d) && Stamped(s, d)
    requires d.state.length == |Live(d.state.tree)|
    ensures Valid(d.state)
  {
    forall k | k in d.state.tree ensures d.state.tree[k].version <= d.state.clock {
      assert k !in done ==> d.state.tree[k] == s.tree[k];
    }
    assert ClockAttained(d.state) by {
      if d.tombstones == map[] {
        assert d.tombstones.Keys == {};
        assert d.state.tree == s.tree;
      } else {
        var k :| k in d.tombstones && d.tombstones[k].version == d.state.clock;
        assert d.state.tree[k].version == d.state.clock;
      }
    }
  }

  /** Every tombstone is newer than everything stored exactly when the clock has room for the
      distinct keys; a Go slice has at most 2^63 - 1 elements. */
  lemma DelIsNewestIff(s: State, origin: Str, keys: seq<Str>)
    requires Valid(s) && |keys| <= MAX_INT64
    ensures TombstonesNewest(s, Del(s, origin, keys)) <==> s.clock + |Elements(keys)| <= MAX_INT64
  {
    if s.clock + |Elements(keys)| <= MAX_INT64 {
      DelStamps(s, origin, keys);
    } else {
      ElementsCount(keys);
      var j :| j in s.tree && s.tree[j].version == s.clock;
      DelOverflows(s, origin, keys);
      var k :| k in Del(s, origin, keys).tombstones && Del(s, origin, keys).tombstones[k].version == MIN_INT64;
      assert !Newer(Del(s, origin, keys).tombstones[k], s.tree[j]);
    }
  }

  ghost predicate TombstonesNewest(s: State, d: DelResult) {
    forall k, j :: k in d.tombstones && j in s.tree ==> Newer(d.tombstones[k], s.tree[j])
  }

  lemma {:induction false} DelOverflows(s: State, origin: Str, keys: seq<Str>)
    requires s.clock + |Elements(keys)| > MAX_INT64
    ensures exists k :: k in Del(s, origin, keys).tombstones && Del(s, origin, keys).tombstones[k].version == MIN_INT64
  {
    assert keys == [] ==> Elements(keys) == {};
    var init, key := keys[..|keys| - 1], keys[|keys| - 1];
    ElementsSnoc(keys);
    DelDeletes(s, origin, init);
    var p, d := Del(s, origin, init), Del(s, origin, keys);
    if s.clock + |Elements(init)| <= MAX_INT64 {
      DelStamps(s, origin, init);
      assert |p.tombstones| == |Elements(init)|;
      assert key in Elements(init) ==> Elements(keys) == Elements(init);
      assert d.tombstones[key].version == MIN_INT64;
    } else {
      DelOverflows(s, origin, init);
      var k :| k in p.tombstones && p.tombstones[k].version == MIN_INT64;
      assert k in d.tombstones && d.tombstones[k] == p.tombstones[k];
    }
  }

  // ----- sequences of operations -----

  datatype Op =
    | OpSet(key: Str, value: Str, origin: Str)
    | OpMerge(item: Keyed)
    | OpDel(origin: Str, keys: seq<Str>)

  function Apply(s: State, op: Op): State {
    match op
    case OpSet(key, value, origin) => SetFrom(s, key, value, origin).0
    case OpMerge(item) => Merge(s, item)
    case OpDel(origin, keys) => Del(s, origin, keys).state
  }

  ghost predicate HasRoom(s: State, op: Op) {
    match op
    case OpSet(_, _, _) => s.clock < MAX_INT64
    case OpMerge(_) => true
    case OpDel(_, keys) => s.clock + |Elements(keys)| <= MAX_INT64
  }

  function ApplyAll(s: State, ops: seq<Op>): State
    decreases |ops|
  {
    if ops == [] then s else ApplyAll(Apply(s, ops[0]), ops[1..])
  }

  ghost predicate AllHaveRoom(s: State, ops: seq<Op>)
    decreases |ops|
  {
    ops == [] || (HasRoom(s, ops[0]) && AllHaveRoom(Apply(s, ops[0]), ops[1..]))
  }

  /** No key disappears or moves back to an older entry. */
  ghost predicate Advances(s: State, t: State) {
    && s.clock <= t.clock
    && forall k :: k in s.tree ==> k in t.tree && AtLeast(t.tree[k], s.tree[k])
  }

  lemma AdvancesReflexive(s: State)
    ensures Advances(s, s)
  {
  }

  lemma AdvancesTransitive(r: State, s: State, t: State)
    requires Advances(r, s) && Advances(s, t)
    ensures Advances(r, t)
  {
    forall k | k in r.tree ensures AtLeast(t.tree[k], r.tree[k]) {
      AtLeastTransitive(t.tree[k], s.tree[k], r.tree[k]);
    }
  }

  lemma ApplyAdvances(s: State, op: Op)
    requires Valid(s) && HasRoom(s, op)
    ensures Valid(Apply(s, op)) && Advances(s, Apply(s, op))
  {
    match op
    case OpSet(key, value, origin) => SetFromInstalls(s, key, value, origin);
    case OpMerge(item) => SetWithVersionJoins(s, item.key, item.entry);
    case OpDel(origin, keys) => DelInstalls(s, origin, keys);
  }

  /** Over any sequence of operations the store stays valid and no key moves backwards; in
      particular a tombstone is only ever replaced by a strictly newer entry. */
  lemma {:induction false} OperationsAdvance(s: State, ops: seq<Op>)
    requires Valid(s) && AllHaveRoom(s, ops)
    ensures Valid(ApplyAll(s, ops)) && Advances(s, ApplyAll(s, ops))
    ensures forall k :: k in s.tree && s.tree[k].deleted && !ApplyAll(s, ops).tree[k].deleted
              ==> Newer(ApplyAll(s, ops).tree[k], s.tree[k])
    decreases |ops|
  {
    if ops != [] {
      ApplyAdvances(s, ops[0]);
      OperationsAdvance(Apply(s, ops[0]), ops[1..]);
      AdvancesTransitive(s, Apply(s, ops[0]), ApplyAll(s, ops));
    }
  }

  /** The clock can run out: one merged entry with the largest version leaves a valid store on
      which a SET of the key is lost, a DEL replaces the entry by an older one, and the next
      version is the smallest. */
  lemma ClockRunsOut(key: Str, value: Str, origin: Str)
    ensures var ops := [OpMerge(Keyed(key, Entry([], MAX_INT64, [], false)))];
            var s := ApplyAll(EMPTY, ops);
            && AllHaveRoom(EMPTY, ops) && Valid(s) && s.clock == MAX_INT64
            && SetFrom(s, key, value, origin).0 == s.(clock := MIN_INT64)
            && !TombstonesNewest(s, Del(s, origin, [key]))
            && key in Del(s, origin, [key]).state.tree
            && Newer(s.tree[key], Del(s, origin, [key]).state.tree[key])
  {
    var ops := [OpMerge(Keyed(key, Entry([], MAX_INT64, [], false)))];
    var s := Apply(EMPTY, ops[0]);
    assert ops[1..] == [] && ApplyAll(s, []) == s;
    ApplyAdvances(EMPTY, ops[0]);
    assert [key][..0] == [];
    var d := Del(s, origin, [key]);
    assert d == DelKey(Del(s, origin, []), origin, key);
    assert !Newer(d.tombstones[key], s.tree[key]);
  }

  // ----- merging is order-insensitive -----

  ghost predicate Candidate(s: State, items: set<Keyed>, k: Str, e: Entry) {
    (k in s.tree && s.tree[k] == e) || Keyed(k, e) in items
  }

  /** `r` holds, key by key, the newest of what `s` held and what `items` offers; its clock is
      the largest version seen. This mentions no order of application. */
  ghost predicate IsJoin(s: State, items: set<Keyed>, r: State) {
    && Valid(r)
    && (forall k :: k in r.tree ==> Candidate(s, items, k, r.tree[k]))
    && (forall k, e :: Candidate(s, items, k, e) ==> k in r.tree && AtLeast(r.tree[k], e))
    && s.clock <= r.clock
    && (forall x :: x in items ==> x.entry.version <= r.clock)
    && (r.clock == s.clock || exists x :: x in items && x.entry.version == r.clock)
  }

  ghost function Items(xs: seq<Keyed>): set<Keyed> {
    set x | x in xs
  }

  lemma JoinUnique(s: State, items: set<Keyed>, r: State, t: State)
    requires IsJoin(s, items, r) && IsJoin(s, items, t)
    ensures r == t
  {
    forall k ensures k in r.tree <==> k in t.tree {
      if k in r.tree { assert Candidate(s, items, k, r.tree[k]); }
      if k in t.tree { assert Candidate(s, items, k, t.tree[k]); }
    }
    forall k | k in r.tree ensures r.tree[k] == t.tree[k] {
      assert Candidate(s, items, k, r.tree[k]) && Candidate(s, items, k, t.tree[k]);
      AtLeastAntisymmetric(r.tree[k], t.tree[k]);
    }
    assert r.tree == t.tree;
  }

  lemma JoinStep(s: State, items: set<Keyed>, r: State, x: Keyed)
    requires IsJoin(s, items, r)
    ensures IsJoin(s, items + {x}, Merge(r, x))
  {
    var t := Merge(r, x);
    var all := items + {x};
    SetWithVersionJoins(r, x.key, x.entry);
    forall k | k in t.tree ensures Candidate(s, all, k, t.tree[k]) {
      if k in r.tree { assert Candidate(s, items, k, r.tree[k]); }
    }
    forall k, e | Candidate(s, all, k, e) ensures k in t.tree && AtLeast(t.tree[k], e) {
      if Candidate(s, items, k, e) {
        AtLeastTransitive(t.tree[k], r.tree[k], e);
      }
    }
    if t.clock != r.clock {
      assert x in all && x.entry.version == t.clock;
    }
  }

  lemma {:induction false} MergeAllIsJoin(s: State, xs: seq<Keyed>)
    requires Valid(s)
    ensures IsJoin(s, Items(xs), MergeAll(s, xs))
  {
    if xs == [] {
    } else {
      var init := xs[..|xs| - 1];
      MergeAllIsJoin(s, init);
      JoinStep(s, Items(init), MergeAll(s, init), xs[|xs| - 1]);
      assert xs == init + [xs[|xs| - 1]];
      assert Items(xs) == Items(init) + {xs[|xs| - 1]};
    }
  }

  /** Any order and any duplication of the same entries gives the same map, clock and length. */
  lemma MergeOrderInsensitive(s: State, xs: seq<Keyed>, ys: seq<Keyed>)
    requires Valid(s)
    requires forall x :: x in xs <==> x in ys
    ensures MergeAll(s, xs) == MergeAll(s, ys)
  {
    assert Items(xs) == Items(ys);
    MergeAllIsJoin(s, xs);
    MergeAllIsJoin(s, ys);
    JoinUnique(s, Items(xs), MergeAll(s, xs), MergeAll(s, ys));
  }

  lemma {:induction false} MergeAllAdvances(s: State, xs: seq<Keyed>)
    requires Valid(s)
    ensures Valid(MergeAll(s, xs)) && Advances(s, MergeAll(s, xs))
    ensures forall x :: x in xs ==> x.key in MergeAll(s, xs).tree && AtLeast(MergeAll(s, xs).tree[x.key], x.entry)
    ensures forall k :: k in MergeAll(s, xs).tree ==>
              (k in s.tree && MergeAll(s, xs).tree[k] == s.tree[k]) || Keyed(k, MergeAll(s, xs).tree[k]) in xs
    ensures forall x :: x in xs ==> x.entry.version <= MergeAll(s, xs).clock
  {
    MergeAllIsJoin(s, xs);
    var r := MergeAll(s, xs);
    forall k | k in s.tree ensures k in r.tree && AtLeast(r.tree[k], s.tree[k]) {
      assert Candidate(s, Items(xs), k, s.tree[k]);
    }
    forall x | x in xs ensures x.key in r.tree && AtLeast(r.tree[x.key], x.entry) {
      assert Candidate(s, Items(xs), x.key, x.entry);
    }
    forall k | k in r.tree ensures (k in s.tree && r.tree[k] == s.tree[k]) || Keyed(k, r.tree[k]) in xs {
      assert Candidate(s, Items(xs), k, r.tree[k]);
    }
    forall x | x in xs ensures x.entry.version <= r.clock {
      assert x in Items(xs);
    }
  }
}
