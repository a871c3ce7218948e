/**
 * The two Python string builtins the date normaliser relies on, modelled on
 * `seq<char>`: `s.split(sep)` with a one-character separator, and
 * `s.replace(pat, rep)`, which rewrites EVERY non-overlapping occurrence of
 * `pat`, scanning from the left.
 */
module Text {

  /** `sep.join(fields)`: the inverse of `Split` (see `SplitJoin`). */
  function Join(fields: seq<string>, sep: char): (s: string)
    requires |fields| >= 1
    decreases |fields|
  {
    if |fields| == 1 then fields[0] else fields[0] + [sep] + Join(fields[1..], sep)
  }

  /**
   * Python's `s.split(sep)` for an explicit separator: never empty, empty
   * fields are kept (`"a||b"` gives three fields, `""` gives `[""]`), no field
   * contains the separator, and joining the fields gives `s` back.
   */
  function Split(s: string, sep: char): (fields: seq<string>)
    ensures |fields| >= 1
    decreases |s|
  {
    if s == [] then [""]
    else
      var rest := Split(s[1..], sep);
      if s[0] == sep then [""] + rest
      else [[s[0]] + rest[0]] + rest[1..]
  }

  /** No field of `Split(s, sep)` contains the separator. */
  lemma {:induction false} SplitFieldsFree(s: string, sep: char)
    ensures forall k :: 0 <= k < |Split(s, sep)| ==> sep !in Split(s, sep)[k]
    decreases |s|
  {
    if s != [] {
      SplitFieldsFree(s[1..], sep);
    }
  }

  /** Round trip: joining the fields of `s` gives `s` back. */
  lemma {:induction false} JoinSplit(s: string, sep: char)
    ensures Join(Split(s, sep), sep) == s
    decreases |s|
  {
    if s != [] {
      JoinSplit(s[1..], sep);
      var rest := Split(s[1..], sep);
      if s[0] == sep {
        assert ([""] + rest)[1..] == rest;
      } else {
        var fields := [[s[0]] + rest[0]] + rest[1..];
        assert fields[1..] == rest[1..];
        assert |rest| > 1 ==> Join(rest, sep) == rest[0] + [sep] + Join(rest[1..], sep);
        assert Join(fields, sep) == [s[0]] + Join(rest, sep);
      }
    }
  }

  lemma {:induction false} SplitWithoutSep(s: string, sep: char)
    requires sep !in s
    ensures Split(s, sep) == [s]
  {
    JoinSplit(s, sep);
  }

  /** One step of `Split`: the first character either ends a field or extends it. */
  lemma {:induction false} SplitCons(c: char, t: string, sep: char)
    ensures Split([c] + t, sep) ==
      if c == sep then [""] + Split(t, sep) else [[c] + Split(t, sep)[0]] + Split(t, sep)[1..]
  {
    assert ([c] + t)[1..] == t;
  }

  /** Extending the first field of `fu + back` extends the first field of `fu`. */
  lemma {:induction false} ExtendFirstField(c: char, fu: seq<string>, back: seq<string>)
    requires |fu| >= 1
    ensures [[c] + (fu + back)[0]] + (fu + back)[1..] == ([[c] + fu[0]] + fu[1..]) + back
  {
    assert (fu + back)[1..] == fu[1..] + back;
  }

  /** A common tail of fields survives a common first character. */
  lemma {:induction false} SplitConsAppend(c: char, t: string, u: string, back: seq<string>, sep: char)
    requires Split(t, sep) == Split(u, sep) + back
    ensures Split([c] + t, sep) == Split([c] + u, sep) + back
  {
    var fu := Split(u, sep);
    if c == sep {
      calc {
        Split([c] + t, sep);
      == { SplitCons(c, t, sep); }
        [""] + (fu + back);
      ==
        ([""] + fu) + back;
      == { SplitCons(c, u, sep); }
        Split([c] + u, sep) + back;
      }
    } else {
      calc {
        Split([c] + t, sep);
      == { SplitCons(c, t, sep); }
        [[c] + (fu + back)[0]] + (fu + back)[1..];
      == { ExtendFirstField(c, fu, back); }
        ([[c] + fu[0]] + fu[1..]) + back;
      == { SplitCons(c, u, sep); }
        Split([c] + u, sep) + back;
      }
    }
  }

  /** Splitting distributes over a separator between two texts. */
  lemma {:induction false} SplitAround(a: string, sep: char, b: string)
    ensures Split(a + [sep] + b, sep) == Split(a, sep) + Split(b, sep)
    decreases |a|
  {
    if a == [] {
      assert a + [sep] + b == [sep] + b;
      SplitCons(sep, b, sep);
    } else {
      SplitAround(a[1..], sep, b);
      SplitConsAppend(a[0], a[1..] + [sep] + b, a[1..], Split(b, sep), sep);
      assert a + [sep] + b == [a[0]] + (a[1..] + [sep] + b);
      assert a == [a[0]] + a[1..];
    }
  }

  /** Round trip: fields free of the separator come back from `Split(Join(...))`. */
  lemma {:induction false} SplitJoin(fields: seq<string>, sep: char)
    requires |fields| >= 1
    requires forall k :: 0 <= k < |fields| ==> sep !in fields[k]
    ensures Split(Join(fields, sep), sep) == fields
    decreases |fields|
  {
    SplitWithoutSep(fields[0], sep);
    if |fields| > 1 {
      SplitJoin(fields[1..], sep);
      SplitAround(fields[0], sep, Join(fields[1..], sep));
    }
  }

  /** Where field `k` starts in `Join(fields, sep)`. */
  function FieldStart(fields: seq<string>, k: nat): (at: nat)
    requires k < |fields|
    decreases k
  {
    if k == 0 then 0 else |fields[0]| + 1 + FieldStart(fields[1..], k - 1)
  }

  lemma {:induction false} JoinField(fields: seq<string>, sep: char, k: nat)
    requires k < |fields|
    ensures FieldStart(fields, k) + |fields[k]| <= |Join(fields, sep)|
    ensures Join(fields, sep)[FieldStart(fields, k)..FieldStart(fields, k) + |fields[k]|] == fields[k]
    decreases k
  {
    if k > 0 {
      JoinField(fields[1..], sep, k - 1);
      var tail := Join(fields[1..], sep);
      var lo := FieldStart(fields[1..], k - 1);
      var skip := |fields[0]| + 1;
      assert Join(fields, sep) == fields[0] + [sep] + tail;
      assert Join(fields, sep)[skip + lo..skip + lo + |fields[k]|] == tail[lo..lo + |fields[k]|];
    }
  }

  /** Fields appear in order and do not overlap (the separator sits between them). */
  lemma {:induction false} FieldStartOrdered(fields: seq<string>, j: nat, k: nat)
    requires j < k < |fields|
    ensures FieldStart(fields, j) + |fields[j]| < FieldStart(fields, k)
    decreases j
  {
    if j > 0 {
      FieldStartOrdered(fields[1..], j - 1, k - 1);
    }
  }

  /** `pat` occurs in `s` starting at index `i`. */
  predicate OccursAt(s: string, pat: string, i: int)
  {
    0 <= i <= |s| - |pat| && s[i..i + |pat|] == pat
  }

  /** The leftmost occurrence of `pat` in `s` starts at index `i`. */
  predicate FirstOccurrence(s: string, pat: string, i: int)
  {
    OccursAt(s, pat, i) && forall j :: 0 <= j < i ==> !OccursAt(s, pat, j)
  }

  /**
   * Python's `s.replace(pat, rep)`: every non-overlapping occurrence of `pat`,
   * found left to right, is replaced by `rep`. An empty `pat` matches before
   * every character and at the end (`"ab".replace("", "X") == "XaXbX"`).
   */
  function ReplaceAll(s: string, pat: string, rep: string): (r: string)
    decreases |s|
  {
    if pat == [] then
      if s == [] then rep else rep + [s[0]] + ReplaceAll(s[1..], pat, rep)
    else if |s| < |pat| then s
    else if s[..|pat|] == pat then rep + ReplaceAll(s[|pat|..], pat, rep)
    else [s[0]] + ReplaceAll(s[1..], pat, rep)
  }

  lemma {:induction false} ReplaceAllShort(s: string, pat: string, rep: string)
    requires pat != [] && |s| < |pat|
    ensures ReplaceAll(s, pat, rep) == s
  {
  }

  lemma {:induction false} ReplaceAllMatch(s: string, pat: string, rep: string)
    requires pat != [] && |s| >= |pat| && s[..|pat|] == pat
    ensures ReplaceAll(s, pat, rep) == rep + ReplaceAll(s[|pat|..], pat, rep)
  {
  }

  lemma {:induction false} ReplaceAllSkip(s: string, pat: string, rep: string)
    requires pat != [] && s != [] && !(|s| >= |pat| && s[..|pat|] == pat)
    ensures ReplaceAll(s, pat, rep) == [s[0]] + ReplaceAll(s[1..], pat, rep)
  {
  }

  /** A character found neither in `s` nor in `rep` is not in the result. */
  lemma {:induction false} ReplaceAllWithout(s: string, pat: string, rep: string, c: char)
    requires c !in s && c !in rep
    ensures c !in ReplaceAll(s, pat, rep)
    decreases |s|
  {
    if pat == [] {
      if s != [] {
        ReplaceAllWithout(s[1..], pat, rep, c);
      }
    } else if |s| >= |pat| && s[..|pat|] == pat {
      ReplaceAllMatch(s, pat, rep);
      ReplaceAllWithout(s[|pat|..], pat, rep, c);
    } else if |s| >= |pat| {
      ReplaceAllSkip(s, pat, rep);
      ReplaceAllWithout(s[1..], pat, rep, c);
    }
  }

  /** A text in which `pat` does not occur is left unchanged. */
  lemma {:induction false} ReplaceAllAbsent(s: string, pat: string, rep: string)
    requires pat != []
    requires forall i :: !OccursAt(s, pat, i)
    ensures ReplaceAll(s, pat, rep) == s
    decreases |s|
  {
    if |s| >= |pat| {
      assert !OccursAt(s, pat, 0);
      forall i ensures !OccursAt(s[1..], pat, i) {
        assert !OccursAt(s, pat, i + 1);
      }
      ReplaceAllAbsent(s[1..], pat, rep);
    }
  }

  /**
   * The scan goes from the left: when the first occurrence of `pat` starts at
   * `i`, everything before it is kept, that occurrence becomes `rep`, and the
   * scan resumes right after it (so overlapping later occurrences are not
   * matched). With `ReplaceAllAbsent` this determines the result for every
   * non-empty pattern.
   */
  lemma {:induction false} ReplaceAllLeftmost(s: string, pat: string, rep: string, i: nat)
    requires pat != [] && FirstOccurrence(s, pat, i)
    ensures ReplaceAll(s, pat, rep) == s[..i] + rep + ReplaceAll(s[i + |pat|..], pat, rep)
    decreases i, 1
  {
    if i == 0 {
      ReplaceAllLeftmostBase(s, pat, rep);
    } else {
      ReplaceAllLeftmostStep(s, pat, rep, i);
    }
  }

  /** The base case of `ReplaceAllLeftmost`: `s` starts with `pat`. */
  lemma {:induction false} ReplaceAllLeftmostBase(s: string, pat: string, rep: string)
    requires pat != [] && OccursAt(s, pat, 0)
    ensures ReplaceAll(s, pat, rep) == s[..0] + rep + ReplaceAll(s[0 + |pat|..], pat, rep)
  {
    assert s[..|pat|] == s[0..|pat|];
    ReplaceAllMatch(s, pat, rep);
    assert s[..0] + rep == rep;
  }

  /** Dropping the first character moves every occurrence one place to the left. */
  lemma {:induction false} OccurrencesShift(s: string, pat: string, i: nat)
    requires 0 < i && FirstOccurrence(s, pat, i)
    ensures FirstOccurrence(s[1..], pat, i - 1) && !OccursAt(s, pat, 0)
  {
    var t := s[1..];
    assert t[i - 1..i - 1 + |pat|] == s[i..i + |pat|];
    forall j | 0 <= j < i - 1 ensures !OccursAt(t, pat, j) {
      assert !OccursAt(s, pat, j + 1);
      if 0 <= j <= |t| - |pat| {
        assert t[j..j + |pat|] == s[j + 1..j + 1 + |pat|];
      }
    }
  }

  /** The inductive case of `ReplaceAllLeftmost`: `s` does not start with `pat`. */
  lemma {:induction false} ReplaceAllLeftmostStep(s: string, pat: string, rep: string, i: nat)
    requires pat != [] && 0 < i && FirstOccurrence(s, pat, i)
    ensures ReplaceAll(s, pat, rep) == s[..i] + rep + ReplaceAll(s[i + |pat|..], pat, rep)
    decreases i, 0
  {
    OccurrencesShift(s, pat, i);
    ReplaceAllLeftmost(s[1..], pat, rep, i - 1);
    var tail := ReplaceAll(s[i + |pat|..], pat, rep);
    assert s[..|pat|] == s[0..|pat|];
    DropShift(s, i + |pat|);
    calc {
      ReplaceAll(s, pat, rep);
    == { ReplaceAllSkip(s, pat, rep); }
      [s[0]] + ReplaceAll(s[1..], pat, rep);
    ==
      [s[0]] + (s[1..][..i - 1] + rep + tail);
    == { Regroup(s, i, rep, tail); }
      s[..i] + rep + tail;
    }
  }

  /** Dropping the first character and then `k - 1` more drops `k`. */
  lemma {:induction false} DropShift(s: string, k: nat)
    requires 0 < k <= |s|
    ensures s[1..][k - 1..] == s[k..]
  {
  }

  /** Re-associates the first character onto the prefix before an occurrence. */
  lemma {:induction false} Regroup(s: string, i: nat, rep: string, tail: string)
    requires 0 < i <= |s|
    ensures [s[0]] + (s[1..][..i - 1] + rep + tail) == s[..i] + rep + tail
  {
    assert s[..i] == [s[0]] + s[1..][..i - 1];
  }

  /** An empty pattern matches at the end too: appending a character appends it and one more `rep`. */
  lemma {:induction false} ReplaceAllEmptySnoc(s: string, c: char, rep: string)
    ensures ReplaceAll(s + [c], [], rep) == ReplaceAll(s, [], rep) + [c] + rep
    decreases |s|
  {
    if s == [] {
      assert ([] + [c])[1..] == [];
      assert [] + [c] == [c];
    } else {
      assert (s + [c])[1..] == s[1..] + [c];
      ReplaceAllEmptySnoc(s[1..], c, rep);
    }
  }

  /** An empty pattern matches before every character and at the end: `|s| + 1` copies of `rep`. */
  lemma {:induction false} ReplaceAllEmptyLength(s: string, rep: string)
    ensures |ReplaceAll(s, [], rep)| == |s| + (|s| + 1) * |rep|
    decreases |s|
  {
    if s != [] {
      ReplaceAllEmptyLength(s[1..], rep);
    }
  }

  /** The whole text being the pattern, it becomes the replacement. */
  lemma {:induction false} ReplaceAllWhole(pat: string, rep: string)
    requires pat != []
    ensures ReplaceAll(pat, pat, rep) == rep
  {
    assert pat[|pat|..] == [];
  }

  /** Replacing one character by one character works position by position. */
  lemma {:induction false} ReplaceAllChar(s: string, a: char, b: char)
    ensures |ReplaceAll(s, [a], [b])| == |s|
    ensures forall i :: 0 <= i < |s| ==>
      ReplaceAll(s, [a], [b])[i] == if s[i] == a then b else s[i]
    decreases |s|
  {
    if s != [] {
      ReplaceAllChar(s[1..], a, b);
      assert s[..1] == [s[0]];
    }
  }

  /** One step of `ReplaceAll` over `a + [sep] + b` when `a` starts with `pat`. */
  lemma {:induction false} ReplaceAllAcrossMatch(a: string, sep: char, b: string, pat: string, rep: string)
    requires pat != [] && |a| >= |pat| && a[..|pat|] == pat
    ensures ReplaceAll(a + [sep] + b, pat, rep) == rep + ReplaceAll(a[|pat|..] + [sep] + b, pat, rep)
  {
    var s := a + [sep] + b;
    assert s[..|pat|] == pat;
    assert s[|pat|..] == a[|pat|..] + [sep] + b;
    ReplaceAllMatch(s, pat, rep);
  }

  /** One step of `ReplaceAll` over `a + [sep] + b` when `a` is long enough but does not start with `pat`. */
  lemma {:induction false} ReplaceAllAcrossSkip(a: string, sep: char, b: string, pat: string, rep: string)
    requires pat != [] && |a| >= |pat| && a[..|pat|] != pat
    ensures ReplaceAll(a + [sep] + b, pat, rep) == [a[0]] + ReplaceAll(a[1..] + [sep] + b, pat, rep)
  {
    var s := a + [sep] + b;
    assert s[..|pat|] == a[..|pat|];
    assert s[1..] == a[1..] + [sep] + b;
    ReplaceAllSkip(s, pat, rep);
  }

  /** One step of `ReplaceAll` over `a + [sep] + b` when `a` is non-empty and shorter than `pat`. */
  lemma {:induction false} ReplaceAllAcrossShort(a: string, sep: char, b: string, pat: string, rep: string)
    requires pat != [] && sep !in pat && 0 < |a| < |pat|
    ensures ReplaceAll(a + [sep] + b, pat, rep) == [a[0]] + ReplaceAll(a[1..] + [sep] + b, pat, rep)
  {
    var s := a + [sep] + b;
    assert s[1..] == a[1..] + [sep] + b;
    if |s| < |pat| {
      ReplaceAllShort(s, pat, rep);
      ReplaceAllShort(s[1..], pat, rep);
    } else {
      assert s[..|pat|][|a|] == sep;
      ReplaceAllSkip(s, pat, rep);
    }
  }

  /** `ReplaceAll` over `[sep] + b` keeps the separator in front. */
  lemma {:induction false} ReplaceAllAcrossEmpty(sep: char, b: string, pat: string, rep: string)
    requires pat != [] && sep !in pat
    ensures ReplaceAll([sep] + b, pat, rep) == [sep] + ReplaceAll(b, pat, rep)
  {
    var s := [sep] + b;
    assert s[1..] == b;
    if |s| < |pat| {
      ReplaceAllShort(s, pat, rep);
      ReplaceAllShort(b, pat, rep);
    } else {
      assert s[..|pat|][0] == sep;
      ReplaceAllSkip(s, pat, rep);
    }
  }

  /** The inductive step of `ReplaceAllAround` when `a` is non-empty and shorter than `pat`. */
  lemma {:induction false} ReplaceAllAroundShort(a: string, sep: char, b: string, pat: string, rep: string)
    requires pat != [] && sep !in pat && 0 < |a| < |pat|
    requires ReplaceAll(a[1..] + [sep] + b, pat, rep) == ReplaceAll(a[1..], pat, rep) + [sep] + ReplaceAll(b, pat, rep)
    ensures ReplaceAll(a + [sep] + b, pat, rep) == ReplaceAll(a, pat, rep) + [sep] + ReplaceAll(b, pat, rep)
  {
    var rb := ReplaceAll(b, pat, rep);
    calc {
      ReplaceAll(a + [sep] + b, pat, rep);
    == { ReplaceAllAcrossShort(a, sep, b, pat, rep); }
      [a[0]] + ReplaceAll(a[1..] + [sep] + b, pat, rep);
    == { ReplaceAllShort(a[1..], pat, rep); }
      [a[0]] + (a[1..] + [sep] + rb);
    == { assert a == [a[0]] + a[1..]; }
      a + [sep] + rb;
    == { ReplaceAllShort(a, pat, rep); }
      ReplaceAll(a, pat, rep) + [sep] + rb;
    }
  }

  /** The inductive step of `ReplaceAllAround` when `a` starts with `pat`. */
  lemma {:induction false} ReplaceAllAroundMatch(a: string, sep: char, b: string, pat: string, rep: string)
    requires pat != [] && |a| >= |pat| && a[..|pat|] == pat
    requires ReplaceAll(a[|pat|..] + [sep] + b, pat, rep) ==
      ReplaceAll(a[|pat|..], pat, rep) + [sep] + ReplaceAll(b, pat, rep)
    ensures ReplaceAll(a + [sep] + b, pat, rep) == ReplaceAll(a, pat, rep) + [sep] + ReplaceAll(b, pat, rep)
  {
    var rb := ReplaceAll(b, pat, rep);
    calc {
      ReplaceAll(a + [sep] + b, pat, rep);
    == { ReplaceAllAcrossMatch(a, sep, b, pat, rep); }
      rep + ReplaceAll(a[|pat|..] + [sep] + b, pat, rep);
    ==
      rep + (ReplaceAll(a[|pat|..], pat, rep) + [sep] + rb);
    ==
      (rep + ReplaceAll(a[|pat|..], pat, rep)) + [sep] + rb;
    == { ReplaceAllMatch(a, pat, rep); }
      ReplaceAll(a, pat, rep) + [sep] + rb;
    }
  }

  /** The inductive step of `ReplaceAllAround` when `a` is long enough but does not start with `pat`. */
  lemma {:induction false} ReplaceAllAroundSkip(a: string, sep: char, b: string, pat: string, rep: string)
    requires pat != [] && |a| >= |pat| && a[..|pat|] != pat
    requires ReplaceAll(a[1..] + [sep] + b, pat, rep) == ReplaceAll(a[1..], pat, rep) + [sep] + ReplaceAll(b, pat, rep)
    ensures ReplaceAll(a + [sep] + b, pat, rep) == ReplaceAll(a, pat, rep) + [sep] + ReplaceAll(b, pat, rep)
  {
    var rb := ReplaceAll(b, pat, rep);
    calc {
      ReplaceAll(a + [sep] + b, pat, rep);
    == { ReplaceAllAcrossSkip(a, sep, b, pat, rep); }
      [a[0]] + ReplaceAll(a[1..] + [sep] + b, pat, rep);
    ==
      [a[0]] + (ReplaceAll(a[1..], pat, rep) + [sep] + rb);
    ==
      ([a[0]] + ReplaceAll(a[1..], pat, rep)) + [sep] + rb;
    == { ReplaceAllSkip(a, pat, rep); }
      ReplaceAll(a, pat, rep) + [sep] + rb;
    }
  }

  /**
   * A pattern without the separator never matches across it, so replacing
   * in `a + [sep] + b` is replacing in `a` and in `b` separately.
   */
  lemma {:induction false} ReplaceAllAround(a: string, sep: char, b: string, pat: string, rep: string)
    requires pat != [] && sep !in pat
    ensures ReplaceAll(a + [sep] + b, pat, rep) == ReplaceAll(a, pat, rep) + [sep] + ReplaceAll(b, pat, rep)
    decreases |a|
  {
    if a == [] {
      assert a + [sep] + b == [sep] + b;
      ReplaceAllAcrossEmpty(sep, b, pat, rep);
      ReplaceAllShort(a, pat, rep);
    } else if |a| < |pat| {
      ReplaceAllAround(a[1..], sep, b, pat, rep);
      ReplaceAllAroundShort(a, sep, b, pat, rep);
    } else if a[..|pat|] == pat {
      ReplaceAllAround(a[|pat|..], sep, b, pat, rep);
      ReplaceAllAroundMatch(a, sep, b, pat, rep);
    } else {
      ReplaceAllAround(a[1..], sep, b, pat, rep);
      ReplaceAllAroundSkip(a, sep, b, pat, rep);
    }
  }

  /** `ReplaceAll` applied to each field in turn. */
  function ReplaceEach(fields: seq<string>, pat: string, rep: string): (replaced: seq<string>)
  {
    seq(|fields|, k requires 0 <= k < |fields| => ReplaceAll(fields[k], pat, rep))
  }

  lemma {:induction false} ReplaceAllJoin(fields: seq<string>, sep: char, pat: string, rep: string)
    requires |fields| >= 1
    requires pat != [] && sep !in pat
    ensures ReplaceAll(Join(fields, sep), pat, rep) == Join(ReplaceEach(fields, pat, rep), sep)
    decreases |fields|
  {
    if |fields| > 1 {
      ReplaceAllJoin(fields[1..], sep, pat, rep);
      ReplaceAllAround(fields[0], sep, Join(fields[1..], sep), pat, rep);
      assert ReplaceEach(fields, pat, rep)[1..] == ReplaceEach(fields[1..], pat, rep);
    }
  }

  /**
   * When neither the pattern nor the replacement contains the separator,
   * replacing in the whole text is replacing in every field: the field
   * structure is kept and each field has all its occurrences rewritten.
   */
  lemma {:induction false} SplitReplaceAll(s: string, sep: char, pat: string, rep: string)
    requires pat != [] && sep !in pat && sep !in rep
    ensures Split(ReplaceAll(s, pat, rep), sep) == ReplaceEach(Split(s, sep), pat, rep)
  {
    var fields := Split(s, sep);
    JoinSplit(s, sep);
    SplitFieldsFree(s, sep);
    ReplaceAllJoin(fields, sep, pat, rep);
    var replaced := ReplaceEach(fields, pat, rep);
    forall k | 0 <= k < |replaced| ensures sep !in replaced[k] {
      ReplaceAllWithout(fields[k], pat, rep, sep);
    }
    SplitJoin(replaced, sep);
  }

  /** An occurrence of `pat` inside field `m` is an occurrence in the joined text. */
  lemma {:induction false} OccursInField(fields: seq<string>, sep: char, pat: string, m: nat, i: int)
    requires m < |fields| && OccursAt(fields[m], pat, i)
    ensures OccursAt(Join(fields, sep), pat, FieldStart(fields, m) + i)
  {
    JoinField(fields, sep, m);
    var at := FieldStart(fields, m);
    var s := Join(fields, sep);
    var field := s[at..at + |fields[m]|];
    forall j | 0 <= j < |pat| ensures s[at + i..at + i + |pat|][j] == pat[j] {
      assert field[i + j] == s[at + i + j];
      assert fields[m][i..i + |pat|][j] == fields[m][i + j];
    }
    assert s[at + i..at + i + |pat|] == pat;
  }

  /**
   * When a field is exactly the pattern and the pattern occurs nowhere else
   * in the text, replacing it rewrites that one field and no other.
   */
  lemma {:induction false} ReplaceOnlyField(s: string, sep: char, pat: string, rep: string, k: nat)
    requires pat != [] && sep !in rep
    requires k < |Split(s, sep)| && Split(s, sep)[k] == pat
    requires forall i, j :: OccursAt(s, pat, i) && OccursAt(s, pat, j) ==> i == j
    ensures Split(ReplaceAll(s, pat, rep), sep) == Split(s, sep)[k := rep]
  {
    var fields := Split(s, sep);
    SplitFieldsFree(s, sep);
    assert sep !in pat;
    JoinSplit(s, sep);
    SplitReplaceAll(s, sep, pat, rep);
    OccursInField(fields, sep, pat, k, 0);
    forall m | 0 <= m < |fields| && m != k
      ensures ReplaceAll(fields[m], pat, rep) == fields[m]
    {
      forall i ensures !OccursAt(fields[m], pat, i) {
        if OccursAt(fields[m], pat, i) {
          OccursInField(fields, sep, pat, m, i);
          if m < k { FieldStartOrdered(fields, m, k); } else { FieldStartOrdered(fields, k, m); }
        }
      }
      ReplaceAllAbsent(fields[m], pat, rep);
    }
    ReplaceAllWhole(pat, rep);
  }
}
