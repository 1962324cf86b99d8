/** Two-level block lookup: a number belongs to a 7-digit block (area code,
    exchange, thousands digit) if one is loaded, else to a 6-digit block. */
module LergMapping {
  import opened PhoneRows
  import opened Decimal

  datatype Texts = Texts(state: string, company: string, ocn: string, rateCenter: string,
                         ocnType: string, lata: string, country: string)

  /** lergKey 0 means that no block was found. */
  datatype LergData = LergData(lergKey: nat, texts: Texts)

  datatype LergRow = LergRow(npa: nat, nxx: nat, x: Option<nat>, texts: Texts)

  function Key(r: LergRow): nat {
    if r.x.None? then r.npa * 1000 + r.nxx else r.npa * 10000 + r.nxx * 10 + r.x.value
  }

  function OrBlank(s: string): string {
    if s == "" then " " else s
  }

  /** Empty texts of 7-digit blocks are stored as a blank. */
  function Stored(r: LergRow): LergData {
    var t := r.texts;
    LergData(Key(r), if r.x.None? then t else
      Texts(OrBlank(t.state), OrBlank(t.company), OrBlank(t.ocn), OrBlank(t.rateCenter),
            OrBlank(t.ocnType), OrBlank(t.lata), OrBlank(t.country)))
  }

  /** The numbers of a block follow one another. */
  function First(r: LergRow): nat {
    (r.npa * 1000 + r.nxx) * 10000 + if r.x.None? then 0 else r.x.value * 1000
  }

  predicate Contains(r: LergRow, number: nat) {
    First(r) <= number < First(r) + if r.x.None? then 10000 else 1000
  }

  predicate WellFormed(r: LergRow) {
    r.nxx < 1000 && (r.x.Some? ==> r.x.value < 10) && Key(r) != 0
  }

  lemma ContainsByKey(r: LergRow, number: nat)
    requires WellFormed(r)
    ensures r.x.Some? ==> (Contains(r, number) <==> number / 1000 == Key(r))
    ensures r.x.None? ==> (Contains(r, number) <==> number / 1000 / 10 == Key(r))
  {
  }

  /** A block contains the numbers that begin with its digits. */
  lemma ContainsByDigits(r: LergRow, number: nat)
    requires WellFormed(r)
    ensures Contains(r, number) <==>
      && number / 10_000_000 == r.npa && number / 10_000 % 1000 == r.nxx
      && (r.x.Some? ==> number / 1000 % 10 == r.x.value)
  {
    hide Contains;
    ContainsByKey(r, number);
    var m, q := number / 1000, number / 1000 / 10;
    assert number / 10_000 == q && number / 10_000_000 == q / 1000;
    assert q == r.npa * 1000 + r.nxx <==> q / 1000 == r.npa && q % 1000 == r.nxx;
    if r.x.Some? {
      assert m == 10 * q + m % 10;
      assert m == Key(r) <==> q == r.npa * 1000 + r.nxx && m % 10 == r.x.value;
    }
  }

  /** Different blocks of the same size have different keys. */
  lemma KeysAreInjective(a: LergRow, b: LergRow)
    requires WellFormed(a) && WellFormed(b) && a.x.Some? == b.x.Some? && Key(a) == Key(b)
    ensures a.npa == b.npa && a.nxx == b.nxx && a.x == b.x
  {
  }

  datatype LergAdded = LergAdded | LergDuplicate | LergFull

  class LergTables {
    var sevens: map<nat, LergData>
    var sixes: map<nat, LergData>
    var keys: seq<nat>
    ghost var rows: seq<LergRow>

    /** Each table holds exactly the loaded rows of its size, one per key. */
    ghost predicate Valid()
      reads this
    {
      && |keys| == |rows|
      && Holds(sevens, true) && Holds(sixes, false)
    }

    ghost predicate Holds(table: map<nat, LergData>, seven: bool)
      reads this
    {
      && (forall i :: 0 <= i < |rows| && rows[i].x.Some? == seven ==>
            Key(rows[i]) in table && table[Key(rows[i])] == Stored(rows[i]))
      && (forall k :: k in table ==> Loaded(k, seven))
    }

    ghost predicate Loaded(key: nat, seven: bool)
      reads this
    {
      exists i :: 0 <= i < |rows| && rows[i].x.Some? == seven && Key(rows[i]) == key
    }

    constructor ()
      ensures Valid() && rows == []
    {
      sevens, sixes, keys, rows := map[], map[], [], [];
    }

    method AddRow(row: LergRow) returns (r: LergAdded)
      requires Valid()
      modifies this
      ensures Valid()
      ensures r == if old(Loaded(Key(row), row.x.Some?)) then LergDuplicate
                   else if |old(rows)| >= MAXROWS then LergFull else LergAdded
      ensures rows == if r.LergAdded? then old(rows) + [row] else old(rows)
    {
      hide Key, Stored;
      var key := Key(row);
      if (row.x.None? && key in sixes) || (row.x.Some? && key in sevens) {
        return LergDuplicate;
      }
      if |keys| >= MAXROWS {
        return LergFull;
      }
      if row.x.None? {
        sixes := sixes[key := Stored(row)];
      } else {
        sevens := sevens[key := Stored(row)];
      }
      keys := keys + [key];
      rows := rows + [row];
      assert rows[|rows| - 1] == row;
      assert forall i :: 0 <= i < |rows| - 1 ==> rows[i] == old(rows)[i];
      r := LergAdded;
    }

    /** What one lookup leaves in an output slot. */
    function Found(number: nat, before: LergData): LergData
      reads this
    {
      var seven := number / 1000;
      var first := if seven in sevens then sevens[seven] else before.(lergKey := 0);
      if first.lergKey != 0 then first
      else if seven / 10 in sixes then sixes[seven / 10] else first.(lergKey := 0)
    }

    /** Look up a batch of numbers in chunks of at most `prefetch`. */
    method GetLergs(N: nat, pn: array<nat>, lerg: array<LergData>, prefetch: nat)
      requires prefetch > 0 && N <= pn.Length && N <= lerg.Length
      modifies lerg
      ensures forall i :: 0 <= i < N ==> lerg[i] == Found(pn[i], old(lerg[i]))
      ensures forall i :: N <= i < lerg.Length ==> lerg[i] == old(lerg[i])
    {
      var base, left := 0, N;
      while left > 0
        invariant 0 <= base <= N && base + left == N
        invariant forall i :: 0 <= i < base ==> lerg[i] == Found(pn[i], old(lerg[i]))
        invariant forall i :: base <= i < lerg.Length ==> lerg[i] == old(lerg[i])
      {
        var M := if left < prefetch then left else prefetch;
        for i := 0 to M
          invariant forall k :: 0 <= k < base + i ==> lerg[k] == Found(pn[k], old(lerg[k]))
          invariant forall k :: base + i <= k < lerg.Length ==> lerg[k] == old(lerg[k])
        {
          var at := base + i;
          var seven := pn[at] / 1000;
          if seven in sevens {
            lerg[at] := sevens[seven];
          } else {
            lerg[at] := lerg[at].(lergKey := 0);
          }
          if lerg[at].lergKey == 0 {
            if seven / 10 in sixes {
              lerg[at] := sixes[seven / 10];
            } else {
              lerg[at] := lerg[at].(lergKey := 0);
            }
          }
        }
        base, left := base + M, left - M;
      }
    }

    /** The smallest loaded block that contains the number is found: its 7-digit
        block if one is loaded, else its 6-digit block, else none. */
    lemma SmallestBlockWins(number: nat, before: LergData)
      requires Valid() && forall i :: 0 <= i < |rows| ==> WellFormed(rows[i])
      ensures forall i :: 0 <= i < |rows| && rows[i].x.Some? && Contains(rows[i], number) ==>
        Found(number, before) == Stored(rows[i])
      ensures (forall j :: 0 <= j < |rows| && rows[j].x.Some? ==> !Contains(rows[j], number)) ==>
        forall i :: 0 <= i < |rows| && rows[i].x.None? && Contains(rows[i], number) ==>
          Found(number, before) == Stored(rows[i])
      ensures (forall j :: 0 <= j < |rows| ==> !Contains(rows[j], number)) <==> Found(number, before).lergKey == 0
    {
      hide Contains, Key, Stored;
      forall i | 0 <= i < |rows|
        ensures rows[i].x.Some? ==> (Contains(rows[i], number) <==> number / 1000 == Key(rows[i]))
        ensures rows[i].x.None? ==> (Contains(rows[i], number) <==> number / 1000 / 10 == Key(rows[i]))
        ensures Stored(rows[i]).lergKey == Key(rows[i]) != 0
      {
        ContainsByKey(rows[i], number);
        StoredKey(rows[i]);
      }
      if number / 1000 in sevens {
        assert Loaded(number / 1000, true);
      }
      if number / 1000 / 10 in sixes {
        assert Loaded(number / 1000 / 10, false);
      }
    }
  }

  /** A text as it is kept: for a 7-digit block a blank if it is empty. */
  ghost predicate Kept(text: string, loaded: string, seven: bool) {
    if seven && loaded == "" then text == " " else text == loaded
  }

  /** What a lookup has found is what the row holds, each text in its place. */
  ghost predicate AsLoaded(found: LergData, row: LergRow) {
    var seven := row.x.Some?;
    && found.lergKey == (if seven then row.npa * 10000 + row.nxx * 10 + row.x.value else row.npa * 1000 + row.nxx)
    && Kept(found.texts.state, row.texts.state, seven) && Kept(found.texts.company, row.texts.company, seven)
    && Kept(found.texts.ocn, row.texts.ocn, seven) && Kept(found.texts.rateCenter, row.texts.rateCenter, seven)
    && Kept(found.texts.ocnType, row.texts.ocnType, seven) && Kept(found.texts.lata, row.texts.lata, seven)
    && Kept(found.texts.country, row.texts.country, seven)
  }

  /** The texts of a lookup are those of the row of the block it finds, each in its
      place; if there is none, the slot keeps the texts it had. */
  lemma LookupTexts(tables: LergTables, number: nat, before: LergData)
    requires tables.Valid() && forall i :: 0 <= i < |tables.rows| ==> WellFormed(tables.rows[i])
    ensures forall i :: 0 <= i < |tables.rows| && tables.rows[i].x.Some? && Contains(tables.rows[i], number) ==>
      AsLoaded(tables.Found(number, before), tables.rows[i])
    ensures (forall j :: 0 <= j < |tables.rows| && tables.rows[j].x.Some? ==> !Contains(tables.rows[j], number)) ==>
      forall i :: 0 <= i < |tables.rows| && tables.rows[i].x.None? && Contains(tables.rows[i], number) ==>
        AsLoaded(tables.Found(number, before), tables.rows[i])
    ensures (forall i :: 0 <= i < |tables.rows| ==> !Contains(tables.rows[i], number)) ==>
      tables.Found(number, before) == LergData(0, before.texts)
  {
    hide Contains, WellFormed, Stored, Key, AsLoaded;
    tables.SmallestBlockWins(number, before);
    forall i | 0 <= i < |tables.rows| ensures AsLoaded(Stored(tables.rows[i]), tables.rows[i]) {
      StoredAsLoaded(tables.rows[i]);
    }
    if forall i :: 0 <= i < |tables.rows| ==> !Contains(tables.rows[i], number) {
      NothingFound(tables, number, before);
    }
  }

  lemma StoredAsLoaded(row: LergRow)
    ensures AsLoaded(Stored(row), row)
  {
  }

  lemma NothingFound(tables: LergTables, number: nat, before: LergData)
    requires tables.Valid() && forall i :: 0 <= i < |tables.rows| ==> WellFormed(tables.rows[i])
    requires forall i :: 0 <= i < |tables.rows| ==> !Contains(tables.rows[i], number)
    ensures tables.Found(number, before) == LergData(0, before.texts)
  {
    hide Stored;
    forall i | 0 <= i < |tables.rows|
      ensures Key(tables.rows[i]) != if tables.rows[i].x.Some? then number / 1000 else number / 1000 / 10
    {
      ContainsByKey(tables.rows[i], number);
    }
    assert number / 1000 !in tables.sevens && number / 1000 / 10 !in tables.sixes;
  }

  lemma StoredKey(r: LergRow)
    requires WellFormed(r)
    ensures Stored(r).lergKey == Key(r) != 0
  {
  }
}
