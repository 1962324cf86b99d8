/** Loads, commits, readers and memory reclamation interleaved arbitrarily.
    Databases live at addresses that are reused once reclaimed; the only thing
    assumed of reclamation is that it spares protected databases. */
module Snapshots {
  import opened PhoneRows
  import opened PhoneIndex
  import opened Decimal
  import opened CsvText
  import opened Control

  type Address = nat
  type Id = nat

  datatype Load = Load(country: Country, text: string)

  /** A protected reference with its cursor. `seen` records the database it
      protected, `shown` the rows it has output since its last query. */
  datatype Reader = Reader(address: Address, country: Country, seen: seq<Row>, from: U64, to: U64, pos: nat,
      shown: seq<Row>)

  datatype State = State(
    published: map<Country, Address>,
    heap: map<Address, seq<Row>>,
    retired: set<Address>,
    loads: map<Id, Load>,
    readers: map<Id, Reader>,
    texts: set<string>,
    fault: bool)

  datatype Event =
    | StartLoad(l: Id, load: Load)
    | FailLoad(l: Id)
    | Commit(l: Id, address: Address)
    | Protect(r: Id, country: Country)
    | Query(r: Id, from: U64, to: U64)
    | Show(r: Id)
    | Release(r: Id)
    | Reclaim(address: Address)

  const EMPTY: State := State(map[], map[], {}, map[], map[], {}, false)

  ghost predicate Protected(s: State, a: Address) {
    exists r :: r in s.readers && s.readers[r].address == a
  }

  /** What a cursor over a database shows for a query; loaded databases never
      exceed MAXROWS. */
  function Answer(rows: seq<Row>, from: U64, to: U64): seq<Row> {
    if |rows| <= MAXROWS then IndexAnswer(rows, Phone34(from), Phone34(to)) else []
  }

  /** The reader goes by what is at its address now; a dangling address does not
      stop it. */
  ghost predicate MayShow(s: State, reader: Reader) {
    reader.address in s.heap ==> reader.pos < |Answer(s.heap[reader.address], reader.from, reader.to)|
  }

  ghost predicate Enabled(s: State, e: Event) {
    match e
    case StartLoad(l, _) => l !in s.loads
    case FailLoad(l) => l in s.loads && LoadText(s.loads[l].text).None?
    case Commit(l, a) => l in s.loads && LoadText(s.loads[l].text).Some? && a !in s.heap
    case Protect(r, c) => r !in s.readers && c in s.published
    case Query(r, _, _) => r in s.readers
    case Show(r) => r in s.readers && MayShow(s, s.readers[r])
    case Release(r) => r in s.readers
    case Reclaim(a) => a in s.retired && !Protected(s, a)
  }

  /** One more row through a reader's pointer: whatever is at that address now. */
  function ShowRow(s: State, reader: Reader): Option<Reader> {
    if reader.address !in s.heap then None
    else
      var answer := Answer(s.heap[reader.address], reader.from, reader.to);
      if reader.pos >= |answer| then None
      else Some(reader.(pos := reader.pos + 1, shown := reader.shown + [answer[reader.pos]]))
  }

  ghost function Apply(s: State, e: Event): State
    requires Enabled(s, e)
  {
    match e
    case StartLoad(l, load) => s.(loads := s.loads[l := load], texts := s.texts + {load.text})
    case FailLoad(l) => s.(loads := s.loads - {l})
    case Commit(l, a) =>
      var load := s.loads[l];
      s.(loads := s.loads - {l},
         heap := s.heap[a := LoadText(load.text).value],
         published := s.published[load.country := a],
         retired := if load.country in s.published then s.retired + {s.published[load.country]} else s.retired)
    case Protect(r, c) =>
      var a := s.published[c];
      if a in s.heap then s.(readers := s.readers[r := Reader(a, c, s.heap[a], 0, 0, 0, [])])
      else s.(fault := true)
    case Query(r, from, to) =>
      s.(readers := s.readers[r := s.readers[r].(from := from, to := to, pos := 0, shown := [])])
    case Show(r) =>
      var shown := ShowRow(s, s.readers[r]);
      if shown.Some? then s.(readers := s.readers[r := shown.value]) else s.(fault := true)
    case Release(r) => s.(readers := s.readers - {r})
    case Reclaim(a) => s.(heap := s.heap - {a}, retired := s.retired - {a})
  }

  ghost predicate CanRun(s: State, events: seq<Event>)
    decreases |events|
  {
    events == [] || (Enabled(s, events[0]) && CanRun(Apply(s, events[0]), events[1..]))
  }

  ghost function Run(s: State, events: seq<Event>): State
    requires CanRun(s, events)
    decreases |events|
  {
    if events == [] then s else Run(Apply(s, events[0]), events[1..])
  }

  // ------------------------------------------------------------ invariant

  /** The database was read from one of the submitted texts. */
  ghost predicate Loaded(texts: set<string>, rows: seq<Row>) {
    exists t :: t in texts && LoadText(t) == Some(rows)
  }

  /** A reader's database is still there, unchanged, and its output is a prefix
      of the answer that database gives. */
  ghost predicate ReaderOk(s: State, reader: Reader) {
    && reader.address in s.heap && s.heap[reader.address] == reader.seen
    && reader.pos <= |Answer(reader.seen, reader.from, reader.to)|
    && reader.shown == Answer(reader.seen, reader.from, reader.to)[..reader.pos]
  }

  ghost predicate Inv(s: State) {
    && !s.fault
    && (forall c :: c in s.published ==> s.published[c] in s.heap && s.published[c] !in s.retired)
    && (US in s.published && CA in s.published ==> s.published[US] != s.published[CA])
    && (forall a :: a in s.retired ==> a in s.heap)
    && (forall r :: r in s.readers ==> ReaderOk(s, s.readers[r]))
    && (forall a :: a in s.heap ==> Loaded(s.texts, s.heap[a]))
    && (forall l :: l in s.loads ==> s.loads[l].text in s.texts)
  }

  lemma LoadedGrows(s: State, more: set<string>)
    requires forall a :: a in s.heap ==> Loaded(s.texts, s.heap[a])
    requires s.texts <= more
    ensures forall a :: a in s.heap ==> Loaded(more, s.heap[a])
  {
    forall a | a in s.heap ensures Loaded(more, s.heap[a]) {
      var t :| t in s.texts && LoadText(t) == Some(s.heap[a]);
      assert t in more;
    }
  }

  lemma StepKeepsInv(s: State, e: Event)
    requires Inv(s) && Enabled(s, e)
    ensures Inv(Apply(s, e))
  {
    hide Answer, LoadText;
    match e {
      case StartLoad(l, load) => LoadedGrows(s, s.texts + {load.text});
      case FailLoad(l) =>
      case Commit(l, a) => CommitKeepsInv(s, l, a);
      case Protect(r, c) =>
      case Query(r, from, to) =>
      case Show(r) => ShowKeepsInv(s, r);
      case Release(r) =>
      case Reclaim(a) => ReclaimKeepsInv(s, a);
    }
  }

  lemma CommitKeepsInv(s: State, l: Id, a: Address)
    requires Inv(s) && Enabled(s, Commit(l, a))
    ensures Inv(Apply(s, Commit(l, a)))
  {
    hide Answer, LoadText;
    var s' := Apply(s, Commit(l, a));
    forall c | c in s'.published ensures s'.published[c] in s'.heap && s'.published[c] !in s'.retired {
      if c != s.loads[l].country {
        assert c in s.published;
        assert s.loads[l].country in s.published ==> s.published[c] != s.published[s.loads[l].country];
      }
    }
    forall b | b in s'.heap ensures Loaded(s'.texts, s'.heap[b]) {
      if b == a {
        assert s.loads[l].text in s'.texts && LoadText(s.loads[l].text) == Some(s'.heap[b]);
      } else {
        assert Loaded(s.texts, s.heap[b]);
      }
    }
    forall r | r in s'.readers ensures ReaderOk(s', s'.readers[r]) {
      assert ReaderOk(s, s.readers[r]);
    }
  }

  lemma ShowKeepsInv(s: State, r: Id)
    requires Inv(s) && Enabled(s, Show(r))
    ensures Inv(Apply(s, Show(r)))
  {
    hide Answer, LoadText;
    var reader := s.readers[r];
    assert ReaderOk(s, reader);
    var answer := Answer(reader.seen, reader.from, reader.to);
    assert answer[..reader.pos + 1] == answer[..reader.pos] + [answer[reader.pos]];
    assert ReaderOk(s, ShowRow(s, reader).value);
  }

  lemma ReclaimKeepsInv(s: State, a: Address)
    requires Inv(s) && Enabled(s, Reclaim(a))
    ensures Inv(Apply(s, Reclaim(a)))
  {
    hide Answer, LoadText;
    var s' := Apply(s, Reclaim(a));
    forall r | r in s'.readers ensures ReaderOk(s', s'.readers[r]) {
      assert ReaderOk(s, s.readers[r]) && s.readers[r].address != a;
    }
  }

  lemma {:induction false} RunKeepsInv(s: State, events: seq<Event>)
    requires Inv(s) && CanRun(s, events)
    ensures Inv(Run(s, events))
    decreases |events|
  {
    if events != [] {
      StepKeepsInv(s, events[0]);
      RunKeepsInv(Apply(s, events[0]), events[1..]);
    }
  }

  // ----------------------------------------------------------- main results

  /** Whatever the interleaving, no pointer is followed to reclaimed memory, and
      all rows a reader has output for its current query are the first rows of
      the answer of one single database: the one it protected, which some
      submitted text loads to. */
  lemma ReadersAreIsolated(events: seq<Event>, r: Id)
    requires CanRun(EMPTY, events) && r in Run(EMPTY, events).readers
    ensures var s := Run(EMPTY, events); var reader := s.readers[r];
      && !s.fault
      && Loaded(s.texts, reader.seen) && |reader.seen| <= MAXROWS && DistinctKeys(reader.seen)
      && reader.shown <= IndexAnswer(reader.seen, Phone34(reader.from), Phone34(reader.to))
      && (AllFit(reader.seen) && reader.from < U34_LIMIT && reader.to < U34_LIMIT ==>
            reader.shown <= InverseRows(reader.seen, reader.from, reader.to))
  {
    hide LoadText, LoadRest, IndexAnswer, InverseRows;
    RunKeepsInv(EMPTY, events);
    var s := Run(EMPTY, events);
    var reader := s.readers[r];
    assert ReaderOk(s, reader) && Loaded(s.texts, s.heap[reader.address]);
    LoadedIsDatabase(s.texts, reader.seen);
    FittingAnswer(reader.seen, reader.from, reader.to);
  }

  lemma LoadedIsDatabase(texts: set<string>, rows: seq<Row>)
    requires Loaded(texts, rows)
    ensures |rows| <= MAXROWS && DistinctKeys(rows)
  {
    hide LoadRest;
    var t :| t in texts && LoadText(t) == Some(rows);
    LoadedKeysAreDistinct([], 0, t);
  }

  /** Between protecting a database and releasing it, no event of anybody makes
      a reader switch databases. */
  lemma {:induction false} ReaderKeepsDatabase(s: State, events: seq<Event>, r: Id)
    requires CanRun(s, events) && r in s.readers
    requires Release(r) !in events
    ensures r in Run(s, events).readers
    ensures Run(s, events).readers[r].seen == s.readers[r].seen
    ensures Run(s, events).readers[r].country == s.readers[r].country
    decreases |events|
  {
    hide Answer, LoadText;
    if events != [] {
      assert events[0] != Release(r);
      ReaderKeepsDatabase(Apply(s, events[0]), events[1..], r);
    }
  }

  /** What a reader protects is the database published at that moment. */
  lemma ProtectTakesPublished(events: seq<Event>, r: Id, c: Country)
    requires CanRun(EMPTY, events) && Enabled(Run(EMPTY, events), Protect(r, c))
    ensures var s := Run(EMPTY, events); var s' := Apply(s, Protect(r, c));
      && s.published[c] in s.heap
      && r in s'.readers && s'.readers[r].seen == s.heap[s.published[c]] && s'.readers[r].country == c
  {
    RunKeepsInv(EMPTY, events);
  }

  /** Once a mapping is available it stays available. */
  lemma {:induction false} AvailabilityIsStable(s: State, events: seq<Event>, c: Country)
    requires CanRun(s, events) && c in s.published
    ensures c in Run(s, events).published
    decreases |events|
  {
    if events != [] {
      AvailabilityIsStable(Apply(s, events[0]), events[1..], c);
    }
  }

  /** Only a commit for a country changes what is published for it, and a commit
      needs a text that loads: failed loads leave everything published as is. */
  lemma PublishedChangesByCommit(s: State, e: Event, c: Country)
    requires Inv(s) && Enabled(s, e)
    requires var s' := Apply(s, e);
      !(c in s.published <==> c in s'.published)
      || (c in s.published && c in s'.published
          && (s.published[c] != s'.published[c] || s'.published[c] !in s'.heap
              || s.heap[s.published[c]] != s'.heap[s'.published[c]]))
    ensures e.Commit? && s.loads[e.l].country == c
    ensures LoadText(s.loads[e.l].text) == Some(Apply(s, e).heap[Apply(s, e).published[c]])
  {
    hide Answer, LoadText;
  }

  // ------------------------------------------------------- what a step does

  /** A commit publishes exactly the rows of its file at its address, retires the
      database it replaces, and leaves the other country, all other databases and
      all readers alone. */
  lemma CommitPublishes(s: State, l: Id, a: Address)
    requires Inv(s) && Enabled(s, Commit(l, a))
    ensures var s' := Apply(s, Commit(l, a)); var c := s.loads[l].country; var other := if c == US then CA else US;
      && c in s'.published && s'.published[c] == a
      && a in s'.heap && LoadText(s.loads[l].text) == Some(s'.heap[a])
      && (c in s.published ==> s'.retired == s.retired + {s.published[c]})
      && (c !in s.published ==> s'.retired == s.retired)
      && (other in s'.published <==> other in s.published)
      && (other in s.published ==> s'.published[other] == s.published[other])
      && (forall b :: b in s.heap ==> b in s'.heap && s'.heap[b] == s.heap[b])
      && s'.readers == s.readers && l !in s'.loads
  {
    hide LoadText;
  }

  /** A query makes the reader start over with exactly these bounds. */
  lemma QueryStarts(s: State, r: Id, from: U64, to: U64)
    requires Enabled(s, Query(r, from, to))
    ensures var s' := Apply(s, Query(r, from, to));
      && r in s'.readers && s'.readers[r] == s.readers[r].(from := from, to := to, pos := 0, shown := [])
      && s'.heap == s.heap && s'.published == s.published
      && (forall q :: q in s.readers && q != r ==> q in s'.readers && s'.readers[q] == s.readers[q])
  {
  }

  /** A step of a reader outputs exactly the next row of the answer of its database. */
  lemma ShowAddsOne(s: State, r: Id)
    requires Inv(s) && Enabled(s, Show(r))
    ensures r in Apply(s, Show(r)).readers
    ensures |s.readers[r].shown| < |AnswerFor(s.readers[r])|
    ensures var reader, reader' := s.readers[r], Apply(s, Show(r)).readers[r];
      && reader'.shown == reader.shown + [AnswerFor(reader)[|reader.shown|]]
      && reader'.seen == reader.seen && reader'.from == reader.from && reader'.to == reader.to
  {
    hide Answer, LoadText;
    assert ReaderOk(s, s.readers[r]);
  }

  /** What a reader is going to show for its query. */
  function AnswerFor(reader: Reader): seq<Row> {
    Answer(reader.seen, reader.from, reader.to)
  }

  /** A reader is only stopped by the end of its answer. */
  lemma ShowEnabledIff(s: State, r: Id)
    requires Inv(s) && r in s.readers
    ensures Enabled(s, Show(r)) <==> |s.readers[r].shown| < |AnswerFor(s.readers[r])|
  {
    hide Answer, LoadText;
    assert ReaderOk(s, s.readers[r]);
  }

  /** A reader can always go on to the end of its answer. */
  lemma {:induction false} ReaderReachesEnd(s: State, r: Id) returns (events: seq<Event>)
    requires Inv(s) && r in s.readers
    ensures CanRun(s, events) && r in Run(s, events).readers && Release(r) !in events
    ensures Run(s, events).readers[r].shown == AnswerFor(s.readers[r])
    decreases |AnswerFor(s.readers[r])| - |s.readers[r].shown|
  {
    hide LoadText, Answer, Inv;
    var reader := s.readers[r];
    ReaderIsOk(s, r);
    if |reader.shown| < |AnswerFor(reader)| {
      ShowEnabledIff(s, r);
      ShowAddsOne(s, r);
      StepKeepsInv(s, Show(r));
      var more := ReaderReachesEnd(Apply(s, Show(r)), r);
      events := [Show(r)] + more;
      assert events[1..] == more;
    } else {
      events := [];
      assert AnswerFor(reader)[..reader.pos] == AnswerFor(reader);
    }
  }

  lemma ReaderIsOk(s: State, r: Id)
    requires Inv(s) && r in s.readers
    ensures ReaderOk(s, s.readers[r])
  {
  }

  /** Once a file has been committed, whoever protects its country next and asks
      for a range can read exactly the answer of that file's rows. */
  lemma LoadThenRead(s: State, l: Id, load: Load, a: Address, r: Id, from: U64, to: U64) returns (events: seq<Event>)
    requires Inv(s) && LoadText(load.text).Some? && l !in s.loads && a !in s.heap && r !in s.readers
    ensures [StartLoad(l, load), Commit(l, a), Protect(r, load.country), Query(r, from, to)] <= events
    ensures CanRun(s, events) && r in Run(s, events).readers
    ensures var rows := LoadText(load.text).value;
      && |rows| <= MAXROWS && Run(s, events).readers[r].seen == rows
      && Run(s, events).readers[r].shown == IndexAnswer(rows, Phone34(from), Phone34(to))
  {
    hide LoadText, IndexAnswer, Inv, Apply, Enabled;
    var first := [StartLoad(l, load), Commit(l, a), Protect(r, load.country), Query(r, from, to)];
    var before := Published(s, l, load, a);
    var after := Queried(before, load.country, r, from, to);
    LoadedRows(after, r);
    var more := ReaderReachesEnd(after, r);
    events := first + more;
    assert first == [StartLoad(l, load), Commit(l, a)] + [Protect(r, load.country), Query(r, from, to)];
    assert events == [StartLoad(l, load), Commit(l, a)] + ([Protect(r, load.country), Query(r, from, to)] + more);
    RunTwo(s, StartLoad(l, load), Commit(l, a), [Protect(r, load.country), Query(r, from, to)] + more);
    RunTwo(before, Protect(r, load.country), Query(r, from, to), more);
    KeptToTheEnd(after, more, r);
  }

  /** The state behind the commit of a new load. */
  lemma Published(s: State, l: Id, load: Load, a: Address) returns (after: State)
    requires Inv(s) && LoadText(load.text).Some? && l !in s.loads && a !in s.heap
    ensures Enabled(s, StartLoad(l, load)) && Enabled(Apply(s, StartLoad(l, load)), Commit(l, a))
    ensures after == Apply(Apply(s, StartLoad(l, load)), Commit(l, a)) && Inv(after)
    ensures after.readers == s.readers && load.country in after.published
    ensures after.published[load.country] in after.heap
    ensures LoadText(load.text) == Some(after.heap[after.published[load.country]])
  {
    hide LoadText, Inv;
    StepKeepsInv(s, StartLoad(l, load));
    StepKeepsInv(Apply(s, StartLoad(l, load)), Commit(l, a));
    after := Apply(Apply(s, StartLoad(l, load)), Commit(l, a));
  }

  /** The state behind a new reader's first query. */
  lemma Queried(s: State, c: Country, r: Id, from: U64, to: U64) returns (after: State)
    requires Inv(s) && r !in s.readers && c in s.published && s.published[c] in s.heap
    ensures Enabled(s, Protect(r, c)) && Enabled(Apply(s, Protect(r, c)), Query(r, from, to))
    ensures after == Apply(Apply(s, Protect(r, c)), Query(r, from, to)) && Inv(after)
    ensures r in after.readers && after.readers[r].seen == s.heap[s.published[c]]
    ensures after.readers[r].from == from && after.readers[r].to == to
  {
    hide LoadText, Answer, Inv;
    StepKeepsInv(s, Protect(r, c));
    StepKeepsInv(Apply(s, Protect(r, c)), Query(r, from, to));
    after := Apply(Apply(s, Protect(r, c)), Query(r, from, to));
  }

  lemma LoadedRows(s: State, r: Id)
    requires Inv(s) && r in s.readers
    ensures |s.readers[r].seen| <= MAXROWS
    ensures AnswerFor(s.readers[r]) ==
        IndexAnswer(s.readers[r].seen, Phone34(s.readers[r].from), Phone34(s.readers[r].to))
  {
    hide LoadText, IndexAnswer;
    assert ReaderOk(s, s.readers[r]);
    LoadedIsDatabase(s.texts, s.readers[r].seen);
  }

  lemma RunTwo(s: State, e: Event, f: Event, more: seq<Event>)
    requires Enabled(s, e) && Enabled(Apply(s, e), f)
    ensures CanRun(s, [e, f] + more) <==> CanRun(Apply(Apply(s, e), f), more)
    ensures CanRun(Apply(Apply(s, e), f), more) ==>
      Run(s, [e, f] + more) == Run(Apply(Apply(s, e), f), more)
  {
    hide Enabled, Apply;
    assert [e, f] + more == [e] + ([f] + more);
    RunAhead(s, e, [f] + more);
    RunAhead(Apply(s, e), f, more);
  }

  lemma RunAhead(s: State, e: Event, more: seq<Event>)
    requires Enabled(s, e)
    ensures CanRun(s, [e] + more) <==> CanRun(Apply(s, e), more)
    ensures CanRun(Apply(s, e), more) ==> Run(s, [e] + more) == Run(Apply(s, e), more)
  {
    hide Enabled, Apply;
    assert ([e] + more)[1..] == more;
  }

  lemma KeptToTheEnd(s: State, more: seq<Event>, r: Id)
    requires CanRun(s, more) && r in s.readers && r in Run(s, more).readers
    ensures Release(r) !in more ==> Run(s, more).readers[r].seen == s.readers[r].seen
  {
    if Release(r) !in more {
      ReaderKeepsDatabase(s, more, r);
    }
  }

  /** A file that does not load can only fail, and leaves everything published. */
  lemma BadFileFails(s: State, l: Id)
    requires l in s.loads && LoadText(s.loads[l].text).None?
    ensures Enabled(s, FailLoad(l)) && forall a :: !Enabled(s, Commit(l, a))
    ensures var s' := Apply(s, FailLoad(l));
      s'.published == s.published && s'.heap == s.heap && s'.readers == s.readers && l !in s'.loads
  {
    hide LoadText;
  }

  /** A release ends one reader and leaves everything else; if no other reader keeps
      its retired database, that can be reclaimed now. */
  lemma ReleaseFrees(s: State, r: Id)
    requires Enabled(s, Release(r))
    ensures var s' := Apply(s, Release(r));
      && r !in s'.readers && (forall q :: q in s.readers && q != r ==> q in s'.readers && s'.readers[q] == s.readers[q])
      && s'.heap == s.heap && s'.published == s.published && s'.retired == s.retired && s'.loads == s.loads
      && (forall a :: a in s.retired && (forall q :: q in s.readers && q != r ==> s.readers[q].address != a) ==>
            Enabled(s', Reclaim(a)))
  {
  }

  /** A retired database is reclaimed exactly when nobody protects it. */
  lemma ReclaimIff(s: State, a: Address)
    requires a in s.retired
    ensures Enabled(s, Reclaim(a)) <==> forall r :: r in s.readers ==> s.readers[r].address != a
    ensures Enabled(s, Reclaim(a)) ==>
      var s' := Apply(s, Reclaim(a)); a !in s'.heap && a !in s'.retired && s'.published == s.published
  {
  }
}
