/**
 * `fix_rsv_dates`: one pass over the records of a downloaded sequence file.
 * The date is field 3 of the `|`-separated identifier; a record dated `NA`
 * or with the known-bad literal `May_2016/Dec_2017` is dropped; any other
 * record lowers the running minimum year, has its date formatted wherever it
 * occurs in the identifier, gets the new identifier as its description, and
 * is collected in input order. A missing field 3 or a year that is not a
 * number aborts the whole run before anything is written.
 *
 * Reading and writing the file are not modelled: the pass takes the parsed
 * records and returns the records to write together with the final minimum
 * year, which the source computes but never uses.
 */
module FormatDownloadedGenomes {
  import opened Text
  import opened Dates

  /** The known-bad date that, like `NA`, drops its record. */
  const BadDate := "May_2016/Dec_2017"

  /** A sequence record: identifier, description line and the sequence itself. */
  datatype Record = Record(id: string, description: string, sequence: string)

  /** The Python exceptions that abort the run. */
  datatype Error =
    | IndexError                  // `id.split('|')[3]` on fewer than four fields
    | ValueError(literal: string) // `int(date[0:4])` on text that is not a number

  datatype Result<T> = Success(value: T) | Failure(error: Error)

  /** What the run produces: the records to write and the final minimum year. */
  datatype Fixed = Fixed(records: seq<Record>, minYear: int)

  predicate IsExcluded(date: string)
  {
    date == "NA" || date == BadDate
  }

  /** Field 3 of the identifier, `id.split('|')[3]`. */
  function DateField(id: string): (date: Result<string>)
    ensures date.Success? <==> |Split(id, '|')| >= 4
    ensures date.Success? ==> date.value == Split(id, '|')[3]
    ensures date.Success? ==> '|' !in date.value
    ensures date.Failure? ==> date.error == IndexError
  {
    var fields := Split(id, '|');
    SplitFieldsFree(id, '|');
    if |fields| < 4 then Failure(IndexError) else Success(fields[3])
  }

  /** `date[0:4]`: Python's slice stops early on a date shorter than four characters. */
  function YearText(date: string): (text: string)
  {
    if |date| < 4 then date else date[..4]
  }

  /**
   * `int(date[0:4])`: the year is the number written by the first (up to)
   * four characters; anything that is not one to four decimal digits raises
   * a `ValueError` carrying that text.
   */
  function ParseYear(date: string): (year: Result<int>)
    ensures year.Success? <==> YearText(date) != [] && AllDigits(YearText(date))
    ensures year.Failure? ==> year.error == ValueError(YearText(date))
    ensures year.Success? ==> year.value == DigitsValue(YearText(date))
    ensures year.Success? ==> 0 <= year.value < 10000
  {
    var text := YearText(date);
    if text != [] && AllDigits(text) then
      DigitsValueBound(text);
      assert Power10(|text|) <= Power10(4) by {
        assert Power10(1) == 10 && Power10(2) == 100 && Power10(3) == 1000 && Power10(4) == 10000;
      }
      Success(DigitsValue(text))
    else
      Failure(ValueError(text))
  }

  /** For a date in one of the deposited shapes, the parsed year is the value of its four year digits. */
  lemma {:induction false} ParseYearDeposited(d: CollectionDate)
    requires d.Valid()
    ensures ParseYear(d.Deposited()) == Success(DigitsValue(d.year))
  {
    assert d.Deposited()[..4] == d.year;
  }

  /** What the loop body decides for one record. */
  datatype Verdict = Drop | Keep(date: string, year: int)

  /**
   * One record: an `IndexError` without field 3; a drop for an excluded
   * date; otherwise the year must parse, and the record is kept.
   */
  function Judge(r: Record): (verdict: Result<Verdict>)
  {
    match DateField(r.id)
    case Failure(e) => Failure(e)
    case Success(date) =>
      if IsExcluded(date) then Success(Drop)
      else
        match ParseYear(date)
        case Failure(e) => Failure(e)
        case Success(year) => Success(Keep(date, year))
  }

  /**
   * The three outcomes for a record: an error exactly when field 3 is missing
   * or a kept date has no numeric year; a drop exactly when field 3 is `NA` or
   * the known-bad literal; otherwise kept with its date and parsed year.
   */
  lemma {:induction false} JudgeCases(r: Record)
    ensures Judge(r).Failure? <==> (DateField(r.id).Failure? ||
      (!IsExcluded(DateField(r.id).value) && ParseYear(DateField(r.id).value).Failure?))
    ensures Judge(r).Failure? ==> Judge(r).error == IndexError || Judge(r).error == ValueError(YearText(DateField(r.id).value))
    ensures Judge(r) == Success(Drop) <==> DateField(r.id).Success? && IsExcluded(DateField(r.id).value)
    ensures Kept(r) ==>
      && DateField(r.id) == Success(Judge(r).value.date)
      && ParseYear(Judge(r).value.date) == Success(Judge(r).value.year)
  {
  }

  predicate Kept(r: Record)
  {
    Judge(r).Success? && Judge(r).value.Keep?
  }

  /**
   * The rewrite of a kept record: every occurrence of the raw date in the
   * identifier is replaced by the formatted date, the description becomes the
   * new identifier, and the sequence is kept.
   */
  function Rewrite(r: Record, date: string): (edited: Record)
  {
    var id := ReplaceAll(r.id, date, FormatDate(date));
    Record(id, id, r.sequence)
  }

  /**
   * A kept record's new identifier has the same fields as the old one, each
   * with every occurrence of the raw date formatted; field 3 is now exactly
   * the formatted date. Description and identifier agree, the sequence is
   * unchanged.
   */
  lemma {:induction false} RewriteFields(r: Record)
    requires Kept(r)
    ensures var date := Judge(r).value.date;
      var edited := Rewrite(r, date);
      && Split(edited.id, '|') == ReplaceEach(Split(r.id, '|'), date, FormatDate(date))
      && Split(edited.id, '|')[3] == FormatDate(date)
      && edited.description == edited.id
      && edited.sequence == r.sequence
  {
    JudgeCases(r);
    var date := Judge(r).value.date;
    assert date != [];
    FormatDateShape(date);
    SplitReplaceAll(r.id, '|', date, FormatDate(date));
    ReplaceAllWhole(date, FormatDate(date));
  }

  /**
   * When the raw date occurs only once in the identifier (as field 3), the
   * rewrite changes field 3 to the formatted date and leaves every other field
   * as it was.
   */
  lemma {:induction false} RewriteOnlyDateField(r: Record)
    requires Kept(r)
    requires forall i, j :: OccursAt(r.id, Judge(r).value.date, i) && OccursAt(r.id, Judge(r).value.date, j) ==> i == j
    ensures var date := Judge(r).value.date;
      Split(Rewrite(r, date).id, '|') == Split(r.id, '|')[3 := FormatDate(date)]
  {
    JudgeCases(r);
    var date := Judge(r).value.date;
    assert date != [];
    FormatDateShape(date);
    ReplaceOnlyField(r.id, '|', date, FormatDate(date), 3);
  }

  /**
   * A record whose identifier has a deposited date as field 3, and that date
   * in no other field, is kept with the year its four digits spell, and is
   * written out under the identifier with field 3 normalised and every other
   * field as it was.
   */
  lemma {:induction false} DepositedRecordRewritten(fields: seq<string>, d: CollectionDate, description: string, sequence: string)
    requires |fields| >= 4 && d.Valid() && fields[3] == d.Deposited()
    requires forall k :: 0 <= k < |fields| ==> '|' !in fields[k]
    requires forall m, i :: 0 <= m < |fields| && m != 3 ==> !OccursAt(fields[m], d.Deposited(), i)
    ensures var r := Record(Join(fields, '|'), description, sequence);
      var id := Join(fields[3 := d.Normalised()], '|');
      && Judge(r) == Success(Keep(d.Deposited(), DigitsValue(d.year)))
      && Emitted(r) == [Record(id, id, sequence)]
  {
    var r := Record(Join(fields, '|'), description, sequence);
    var date := d.Deposited();
    SplitJoin(fields, '|');
    assert DateField(r.id) == Success(date);
    assert |date| == 4 || |date| == 7 || |date| == 10;
    assert !IsExcluded(date);
    ParseYearDeposited(d);
    assert Judge(r) == Success(Keep(date, DigitsValue(d.year)));
    FormatDateDeposited(d);
    ReplaceAllJoin(fields, '|', date, d.Normalised());
    var replaced := ReplaceEach(fields, date, d.Normalised());
    forall m | 0 <= m < |fields| ensures replaced[m] == fields[3 := d.Normalised()][m] {
      if m == 3 {
        ReplaceAllWhole(date, d.Normalised());
      } else {
        ReplaceAllAbsent(fields[m], date, d.Normalised());
      }
    }
    assert replaced == fields[3 := d.Normalised()];
  }

  /** The records the loop body appends for `r`: none, or its rewrite. */
  function Emitted(r: Record): (appended: seq<Record>)
  {
    match Judge(r)
    case Success(Keep(date, _)) => [Rewrite(r, date)]
    case _ => []
  }

  /** `min_year` after the loop body has seen `r`. */
  function Lowered(minYear: int, r: Record): (lowered: int)
  {
    match Judge(r)
    case Success(Keep(_, year)) => if year < minYear then year else minYear
    case _ => minYear
  }

  /** The list `edited_records` after the loop has seen `rs`. */
  function Edited(rs: seq<Record>): (edited: seq<Record>)
    decreases |rs|
  {
    if rs == [] then [] else Edited(rs[..|rs| - 1]) + Emitted(rs[|rs| - 1])
  }

  /** `min_year` after the loop has seen `rs`, starting from `seed`. */
  function MinYear(seed: int, rs: seq<Record>): (least: int)
    decreases |rs|
  {
    if rs == [] then seed else Lowered(MinYear(seed, rs[..|rs| - 1]), rs[|rs| - 1])
  }

  /** The positions of the kept records of `rs`, in increasing order. */
  function KeptIndices(rs: seq<Record>): (idx: seq<nat>)
    ensures forall j :: 0 <= j < |idx| ==> idx[j] < |rs|
    ensures forall j, l :: 0 <= j < l < |idx| ==> idx[j] < idx[l]
    ensures forall k :: 0 <= k < |rs| ==> (Kept(rs[k]) <==> k in idx)
    decreases |rs|
  {
    if rs == [] then []
    else
      var n := |rs| - 1;
      assert forall k :: 0 <= k < n ==> rs[..n][k] == rs[k];
      KeptIndices(rs[..n]) + if Kept(rs[n]) then [n] else []
  }

  lemma {:induction false} EditedSnoc(rs: seq<Record>, r: Record)
    ensures Edited(rs + [r]) == Edited(rs) + Emitted(r)
  {
    assert (rs + [r])[..|rs|] == rs;
  }

  lemma {:induction false} MinYearSnoc(seed: int, rs: seq<Record>, r: Record)
    ensures MinYear(seed, rs + [r]) == Lowered(MinYear(seed, rs), r)
  {
    assert (rs + [r])[..|rs|] == rs;
  }

  /** The inductive step of `EditedAppend`. */
  lemma {:induction false} EditedAppendStep(a: seq<Record>, init: seq<Record>, last: Record)
    requires Edited(a + init) == Edited(a) + Edited(init)
    ensures Edited(a + (init + [last])) == Edited(a) + Edited(init + [last])
  {
    calc {
      Edited(a + (init + [last]));
    == { assert a + (init + [last]) == (a + init) + [last]; }
      Edited((a + init) + [last]);
    == { EditedSnoc(a + init, last); }
      Edited(a + init) + Emitted(last);
    ==
      Edited(a) + (Edited(init) + Emitted(last));
    == { EditedSnoc(init, last); }
      Edited(a) + Edited(init + [last]);
    }
  }

  /** `edited_records` grows only at its end. */
  lemma {:induction false} EditedAppend(a: seq<Record>, b: seq<Record>)
    ensures Edited(a + b) == Edited(a) + Edited(b)
    decreases |b|
  {
    if b == [] {
      assert a + b == a;
    } else {
      var init, last := b[..|b| - 1], b[|b| - 1];
      assert b == init + [last];
      EditedAppend(a, init);
      EditedAppendStep(a, init, last);
    }
  }

  /** The inductive step of `MinYearAppend`. */
  lemma {:induction false} MinYearAppendStep(seed: int, a: seq<Record>, init: seq<Record>, last: Record)
    requires MinYear(seed, a + init) == MinYear(MinYear(seed, a), init)
    ensures MinYear(seed, a + (init + [last])) == MinYear(MinYear(seed, a), init + [last])
  {
    calc {
      MinYear(seed, a + (init + [last]));
    == { assert a + (init + [last]) == (a + init) + [last]; }
      MinYear(seed, (a + init) + [last]);
    == { MinYearSnoc(seed, a + init, last); }
      Lowered(MinYear(seed, a + init), last);
    == { MinYearSnoc(MinYear(seed, a), init, last); }
      MinYear(MinYear(seed, a), init + [last]);
    }
  }

  /** The minimum over `a + b` is the minimum over `b` seeded with the minimum over `a`. */
  lemma {:induction false} MinYearAppend(seed: int, a: seq<Record>, b: seq<Record>)
    ensures MinYear(seed, a + b) == MinYear(MinYear(seed, a), b)
    decreases |b|
  {
    if b == [] {
      assert a + b == a;
    } else {
      var init, last := b[..|b| - 1], b[|b| - 1];
      assert b == init + [last];
      MinYearAppend(seed, a, init);
      MinYearAppendStep(seed, a, init, last);
    }
  }

  /** The loop body appends a record exactly when it keeps it. */
  lemma {:induction false} EmittedKept(r: Record)
    ensures Emitted(r) == if Kept(r) then [Rewrite(r, Judge(r).value.date)] else []
  {
  }

  /** One output record per kept input record. */
  lemma {:induction false} EditedLength(rs: seq<Record>)
    ensures |Edited(rs)| == |KeptIndices(rs)|
    decreases |rs|
  {
    if rs != [] {
      EditedLength(rs[..|rs| - 1]);
      EmittedKept(rs[|rs| - 1]);
    }
  }

  /** The j-th output record is the rewrite of the j-th kept input record. */
  lemma {:induction false} EditedAt(rs: seq<Record>, j: nat)
    requires j < |KeptIndices(rs)|
    ensures |Edited(rs)| == |KeptIndices(rs)|
    ensures Kept(rs[KeptIndices(rs)[j]])
    ensures Edited(rs)[j] == Rewrite(rs[KeptIndices(rs)[j]], Judge(rs[KeptIndices(rs)[j]]).value.date)
    decreases |rs|
  {
    EditedLength(rs);
    var n := |rs| - 1;
    var init := rs[..n];
    EditedLength(init);
    EmittedKept(rs[n]);
    assert Edited(rs) == Edited(init) + Emitted(rs[n]);
    var idx := KeptIndices(rs);
    assert idx == KeptIndices(init) + if Kept(rs[n]) then [n] else [];
    if j < |KeptIndices(init)| {
      EditedAt(init, j);
      assert idx[j] == KeptIndices(init)[j];
      assert init[idx[j]] == rs[idx[j]];
      assert Edited(rs)[j] == Edited(init)[j];
    } else {
      assert idx[j] == n;
    }
  }

  /**
   * The output is the kept records, rewritten, in input order: one output
   * record per kept position, the j-th coming from the j-th kept position,
   * with that record's sequence and with description equal to identifier.
   */
  lemma {:induction false} EditedInOrder(rs: seq<Record>)
    ensures |Edited(rs)| == |KeptIndices(rs)|
    ensures forall j :: 0 <= j < |Edited(rs)| ==>
      && Kept(rs[KeptIndices(rs)[j]])
      && Edited(rs)[j] == Rewrite(rs[KeptIndices(rs)[j]], Judge(rs[KeptIndices(rs)[j]]).value.date)
      && Edited(rs)[j].sequence == rs[KeptIndices(rs)[j]].sequence
      && Edited(rs)[j].description == Edited(rs)[j].id
  {
    EditedLength(rs);
    forall j | 0 <= j < |Edited(rs)|
      ensures Kept(rs[KeptIndices(rs)[j]])
      ensures Edited(rs)[j] == Rewrite(rs[KeptIndices(rs)[j]], Judge(rs[KeptIndices(rs)[j]]).value.date)
    {
      EditedAt(rs, j);
    }
  }

  /**
   * A record whose date is `NA` or the known-bad literal contributes nothing:
   * removing it changes neither the output nor the minimum year.
   */
  lemma {:induction false} ExcludedRecordIgnored(seed: int, rs: seq<Record>, k: nat)
    requires k < |rs| && DateField(rs[k].id).Success? && IsExcluded(DateField(rs[k].id).value)
    ensures Edited(rs) == Edited(rs[..k] + rs[k + 1..])
    ensures MinYear(seed, rs) == MinYear(seed, rs[..k] + rs[k + 1..])
  {
    var before, dropped, after := rs[..k], [rs[k]], rs[k + 1..];
    ExcludedIsDropped(rs[k]);
    DroppedContributesNothing(MinYear(seed, before), rs[k]);
    assert rs == (before + dropped) + after;
    calc {
      Edited(rs);
      { EditedAppend(before + dropped, after); }
      Edited(before + dropped) + Edited(after);
      { EditedAppend(before, dropped); }
      Edited(before) + Edited(after);
      { EditedAppend(before, after); }
      Edited(before + after);
    }
    calc {
      MinYear(seed, rs);
      { MinYearAppend(seed, before + dropped, after); }
      MinYear(MinYear(seed, before + dropped), after);
      { MinYearAppend(seed, before, dropped); }
      MinYear(MinYear(seed, before), after);
      { MinYearAppend(seed, before, after); }
      MinYear(seed, before + after);
    }
  }

  lemma {:induction false} ExcludedIsDropped(r: Record)
    requires DateField(r.id).Success? && IsExcluded(DateField(r.id).value)
    ensures Judge(r) == Success(Drop)
  {
  }

  lemma {:induction false} DroppedContributesNothing(seed: int, r: Record)
    requires Judge(r) == Success(Drop)
    ensures Edited([r]) == []
    ensures MinYear(seed, [r]) == seed
  {
    assert [r][..0] == [];
  }

  /**
   * The final minimum year is the least of the seed and the years of all
   * kept records: no greater than the seed, no greater than any kept year,
   * and either the seed or one of those years.
   */
  lemma {:induction false} MinYearIsMinimum(seed: int, rs: seq<Record>)
    ensures MinYear(seed, rs) <= seed
    ensures forall k :: 0 <= k < |rs| && Kept(rs[k]) ==> MinYear(seed, rs) <= Judge(rs[k]).value.year
    ensures MinYear(seed, rs) == seed ||
      exists k :: 0 <= k < |rs| && Kept(rs[k]) && Judge(rs[k]).value.year == MinYear(seed, rs)
    decreases |rs|
  {
    if rs != [] {
      var n := |rs| - 1;
      MinYearIsMinimum(seed, rs[..n]);
      assert forall k :: 0 <= k < n ==> rs[..n][k] == rs[k];
      var m := MinYear(seed, rs[..n]);
      if MinYear(seed, rs) != seed && MinYear(seed, rs) != m {
        assert Kept(rs[n]) && Judge(rs[n]).value.year == MinYear(seed, rs);
      }
    }
  }

  /**
   * The final minimum year stays at the seed (2000 when run from `main`)
   * exactly when no kept record is dated before it.
   */
  lemma {:induction false} MinYearStaysAtSeed(seed: int, rs: seq<Record>)
    ensures MinYear(seed, rs) == seed <==>
      forall k :: 0 <= k < |rs| && Kept(rs[k]) ==> seed <= Judge(rs[k]).value.year
  {
    MinYearIsMinimum(seed, rs);
  }

  /** The running minimum never goes up as the loop proceeds. */
  lemma {:induction false} MinYearNonIncreasing(seed: int, rs: seq<Record>, i: nat, j: nat)
    requires i <= j <= |rs|
    ensures MinYear(seed, rs[..j]) <= MinYear(seed, rs[..i])
  {
    assert rs[..j] == rs[..i] + rs[i..j];
    MinYearAppend(seed, rs[..i], rs[i..j]);
    MinYearIsMinimum(MinYear(seed, rs[..i]), rs[i..j]);
  }

  /** A record that raises no error is kept exactly when its date is not excluded. */
  lemma {:induction false} KeptUnlessExcluded(r: Record)
    requires Judge(r).Success?
    ensures DateField(r.id).Success?
    ensures Kept(r) <==> !IsExcluded(DateField(r.id).value)
  {
  }

  /**
   * On a run without errors the output holds one record per input record
   * whose date is neither `NA` nor the known-bad literal.
   */
  lemma {:induction false} OutputCount(rs: seq<Record>)
    requires forall k :: 0 <= k < |rs| ==> Judge(rs[k]).Success?
    ensures |Edited(rs)| == |KeptIndices(rs)|
    ensures forall k :: 0 <= k < |rs| ==> (k in KeptIndices(rs) <==> !IsExcluded(DateField(rs[k].id).value))
  {
    EditedLength(rs);
    forall k | 0 <= k < |rs|
      ensures k in KeptIndices(rs) <==> !IsExcluded(DateField(rs[k].id).value)
    {
      KeptUnlessExcluded(rs[k]);
    }
  }

  /** No record of `rs` raises an error. */
  predicate Clean(rs: seq<Record>)
    decreases |rs|
  {
    rs == [] || (Clean(rs[..|rs| - 1]) && Judge(rs[|rs| - 1]).Success?)
  }

  lemma {:induction false} CleanAll(rs: seq<Record>)
    ensures Clean(rs) <==> forall k :: 0 <= k < |rs| ==> Judge(rs[k]).Success?
    decreases |rs|
  {
    if rs != [] {
      var n := |rs| - 1;
      CleanAll(rs[..n]);
      assert forall k :: 0 <= k < n ==> rs[..n][k] == rs[k];
    }
  }

  /** The record at `i` is the first to fail when all before it are clean. */
  lemma {:induction false} FirstFailure(rs: seq<Record>, i: nat)
    requires i < |rs| && Clean(rs[..i]) && Judge(rs[i]).Failure?
    ensures !(forall k :: 0 <= k < |rs| ==> Judge(rs[k]).Success?)
    ensures forall j :: 0 <= j < i ==> Judge(rs[j]).Success?
  {
    CleanAll(rs[..i]);
    assert forall j :: 0 <= j < i ==> rs[..i][j] == rs[j];
  }

  /** One more record seen by the loop. */
  lemma {:induction false} LoopStep(seed: int, rs: seq<Record>, i: nat)
    requires i < |rs|
    ensures Edited(rs[..i + 1]) == Edited(rs[..i]) + Emitted(rs[i])
    ensures MinYear(seed, rs[..i + 1]) == Lowered(MinYear(seed, rs[..i]), rs[i])
    ensures Clean(rs[..i + 1]) == (Clean(rs[..i]) && Judge(rs[i]).Success?)
  {
    assert rs[..i + 1][..i] == rs[..i];
  }

  /**
   * The loop of `fix_rsv_dates` over the parsed records, seeded with
   * `minYear`. The run fails with the error of the first record that has no
   * field 3 or whose kept date has no numeric year; otherwise it returns the
   * rewritten kept records in order and the final minimum year.
   */
  method FixRsvDates(records: seq<Record>, minYear: int) returns (result: Result<Fixed>)
    ensures result.Success? <==> forall k :: 0 <= k < |records| ==> Judge(records[k]).Success?
    ensures result.Failure? ==> exists k :: (0 <= k < |records| &&
      (forall j :: 0 <= j < k ==> Judge(records[j]).Success?) && Judge(records[k]) == Failure(result.error))
    ensures result.Success? ==> result.value == Fixed(Edited(records), MinYear(minYear, records))
  {
    var edited: seq<Record> := [];
    var least := minYear;
    for i := 0 to |records|
      invariant Clean(records[..i])
      invariant edited == Edited(records[..i])
      invariant least == MinYear(minYear, records[..i])
    {
      var virus := records[i];
      LoopStep(minYear, records, i);
      var field := DateField(virus.id);
      if field.Failure? {
        assert Judge(virus) == Failure(IndexError);
        FirstFailure(records, i);
        return Failure(IndexError);
      }
      var date := field.value;
      if date != "NA" && date != BadDate {
        var year := ParseYear(date);
        if year.Failure? {
          assert Judge(virus) == Failure(year.error);
          FirstFailure(records, i);
          return Failure(year.error);
        }
        assert Judge(virus) == Success(Keep(date, year.value));
        if year.value < least {
          least := year.value;
        }
        var formatted := FormatDate(date);
        var id := ReplaceAll(virus.id, date, formatted);
        assert Emitted(virus) == [Record(id, id, virus.sequence)];
        edited := edited + [Record(id, id, virus.sequence)];
      } else {
        assert Judge(virus) == Success(Drop);
      }
    }
    assert records[..|records|] == records;
    CleanAll(records);
    return Success(Fixed(edited, least));
  }
}
