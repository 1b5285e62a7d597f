/**
 * What the charge substitution guarantees, proved about the fold that
 * `ChargesToRft.ParseRft` is verified against: which residue is in scope at
 * each line, which lines are rewritten and how, and when the run is accepted.
 */
module RftProperties {
  import opened Wrappers
  import opened PyText
  import opened ChargeTable
  import opened ChargesToRft

  // ----- residue tracking -----

  /**
   * The residue in scope after a prefix of the file is `None` exactly when no
   * line of it mentions a residue name; otherwise it is the name found in the
   * last line that mentions one.
   */
  lemma {:induction false} ResidueInScope(names: seq<string>, lines: seq<string>)
    ensures ResidueAfter(names, lines).None?
            <==> forall i :: 0 <= i < |lines| ==> FirstContained(names, lines[i]).None?
    ensures ResidueAfter(names, lines).Some? ==>
              exists i :: && 0 <= i < |lines| && FirstContained(names, lines[i]) == ResidueAfter(names, lines)
                          && forall j :: i < j < |lines| ==> FirstContained(names, lines[j]).None?
    decreases |lines|
  {
    if lines != [] {
      var n := |lines| - 1;
      ResidueInScope(names, lines[..n]);
      if FirstContained(names, lines[n]).Some? {
        assert ResidueAfter(names, lines) == FirstContained(names, lines[n]);
      } else {
        ResidueKept(names, lines);
      }
    }
  }

  /** A last line that mentions no residue name leaves the characterisation of the prefix in place. */
  lemma ResidueKept(names: seq<string>, lines: seq<string>)
    requires lines != [] && FirstContained(names, lines[|lines| - 1]).None?
    requires var init := lines[..|lines| - 1];
             && (ResidueAfter(names, init).None? <==> forall i :: 0 <= i < |init| ==> FirstContained(names, init[i]).None?)
             && (ResidueAfter(names, init).Some? ==>
                   exists i :: && 0 <= i < |init| && FirstContained(names, init[i]) == ResidueAfter(names, init)
                               && forall j :: i < j < |init| ==> FirstContained(names, init[j]).None?)
    ensures ResidueAfter(names, lines).None?
            <==> forall i :: 0 <= i < |lines| ==> FirstContained(names, lines[i]).None?
    ensures ResidueAfter(names, lines).Some? ==>
              exists i :: && 0 <= i < |lines| && FirstContained(names, lines[i]) == ResidueAfter(names, lines)
                          && forall j :: i < j < |lines| ==> FirstContained(names, lines[j]).None?
  {
  }

  lemma {:induction false} FirstContainedAppend(names: seq<string>, x: string, line: string)
    ensures FirstContained(names + [x], line)
         == if FirstContained(names, line).Some? then FirstContained(names, line)
            else if Contains(line, x) then Some(x) else None
  {
    if names != [] {
      assert (names + [x])[1..] == names[1..] + [x];
      FirstContainedAppend(names[1..], x, line);
    }
  }

  /**
   * Testing the residue names in `unique()` order finds the same name as
   * testing the table's residue column row by row: the residue a line selects
   * is the residue of the earliest table row whose residue name it contains.
   */
  lemma {:induction false} FirstContainedUnique(xs: seq<string>, line: string)
    ensures FirstContained(Unique(xs), line) == FirstContained(xs, line)
    decreases |xs|
  {
    if xs != [] {
      var init, last := xs[..|xs| - 1], xs[|xs| - 1];
      assert xs == init + [last];
      FirstContainedUnique(init, line);
      FirstContainedAppend(init, last, line);
      if last !in Unique(init) {
        FirstContainedAppend(Unique(init), last, line);
      } else if FirstContained(init, line).None? {
        var k :| 0 <= k < |init| && init[k] == last;
        FirstContainedSpec(init, line);
        assert !Contains(line, init[k]);
      }
    }
  }

  // ----- classification -----

  /**
   * The atom-name loop substitutes (breaks at some name) exactly when the line
   * is a charge record, whatever order it tries the names in: the candidate
   * that matches first does not matter, since the second-column test does not
   * depend on it and `Substitute` re-reads the atom name from `line[0:7]`.
   */
  lemma {:induction false} AtomOrderIrrelevant(candidates: seq<string>, atoms: seq<string>, line: string)
    requires forall x :: x in candidates <==> x in atoms
    ensures MatchedAtom(candidates, atoms, line).Some? <==> IsChargeRecord(atoms, line)
    ensures MatchedAtom(candidates, atoms, line).Some? ==>
              MatchedAtom(candidates, atoms, line).value in atoms
              && Contains(Slice(line, 0, 7), MatchedAtom(candidates, atoms, line).value)
  {
    MatchedAtomFinds(candidates, atoms, line);
    if IsChargeRecord(atoms, line) {
      var k :| 0 <= k < |atoms| && Contains(Slice(line, 0, 7), atoms[k]);
      assert atoms[k] in candidates;
      var c :| 0 <= c < |candidates| && candidates[c] == atoms[k];
      assert BreaksAt(atoms, Slice(line, 0, 7), SecondEntry(line), candidates[c]);
    }
  }

  lemma {:induction false} MatchedAtomFinds(candidates: seq<string>, atoms: seq<string>, line: string)
    ensures MatchedAtom(candidates, atoms, line).Some?
            <==> exists c :: 0 <= c < |candidates| && BreaksAt(atoms, Slice(line, 0, 7), SecondEntry(line), candidates[c])
    ensures MatchedAtom(candidates, atoms, line).Some? ==>
              MatchedAtom(candidates, atoms, line).value in candidates
              && BreaksAt(atoms, Slice(line, 0, 7), SecondEntry(line), MatchedAtom(candidates, atoms, line).value)
    decreases |candidates|
  {
    if candidates != [] {
      MatchedAtomFinds(candidates[1..], atoms, line);
      assert forall c :: 0 < c < |candidates| ==> candidates[c] == candidates[1..][c - 1];
    }
  }

  /**
   * Whether a line is rewritten depends on nothing but its columns [0,7) and
   * [8,18) and the set of atom names; in particular not on the residue in
   * scope, which only selects the charge that is written.
   */
  lemma ClassificationUsesOnlyFields(atoms1: seq<string>, atoms2: seq<string>, line1: string, line2: string)
    requires forall x :: x in atoms1 <==> x in atoms2
    requires Slice(line1, 0, 7) == Slice(line2, 0, 7) && Slice(line1, 8, 18) == Slice(line2, 8, 18)
    ensures IsChargeRecord(atoms1, line1) == IsChargeRecord(atoms2, line2)
  {
    if exists k :: 0 <= k < |atoms1| && Contains(Slice(line1, 0, 7), atoms1[k]) {
      var k :| 0 <= k < |atoms1| && Contains(Slice(line1, 0, 7), atoms1[k]);
      assert atoms1[k] in atoms2;
      var k2 :| 0 <= k2 < |atoms2| && atoms2[k2] == atoms1[k];
      assert Contains(Slice(line2, 0, 7), atoms2[k2]);
    }
    if exists k :: 0 <= k < |atoms2| && Contains(Slice(line2, 0, 7), atoms2[k]) {
      var k :| 0 <= k < |atoms2| && Contains(Slice(line2, 0, 7), atoms2[k]);
      assert atoms2[k] in atoms1;
      var k1 :| 0 <= k1 < |atoms1| && atoms1[k1] == atoms2[k];
      assert Contains(Slice(line1, 0, 7), atoms1[k1]);
    }
  }

  // ----- substitution -----

  /**
   * A rewritten line that was at least 18 characters long keeps its atom and
   * second columns: it is still a charge record, and it still looks up the same
   * atom name, so a second pass classifies it the same way.
   */
  lemma SubstituteKeepsKeyColumns<Q>(line: string, rows: seq<Row<Q>>, residue: Option<string>,
                                     fmt: Q -> string, atoms: seq<string>)
    requires |line| >= 18 && Substitute(line, rows, residue, fmt).Success?
    ensures var out := Substitute(line, rows, residue, fmt).value;
            && Slice(out, 0, 7) == Slice(line, 0, 7)
            && Slice(out, 8, 18) == Slice(line, 8, 18)
            && Strip(Slice(out, 0, 7)) == Strip(Slice(line, 0, 7))
            && IsChargeRecord(atoms, out) == IsChargeRecord(atoms, line)
  {
  }

  /** Proof step: `Substitute`'s positional ensures, read as one splice on a line of at least 34 characters. */
  lemma SubstituteSplice<Q>(line: string, rows: seq<Row<Q>>, residue: Option<string>, fmt: Q -> string)
    requires |line| >= 34 && Substitute(line, rows, residue, fmt).Success?
    ensures Substitute(line, rows, residue, fmt).value
         == line[..24] + (fmt(Lookup(rows, Strip(Slice(line, 0, 7)), residue).value) + "  ") + line[34..]
  {
  }

  /**
   * Where the columns of a line of at least 34 characters end up when
   * `line[24:34]` is replaced by `f` (the formatted charge and two blanks): the
   * first 24 stay in place and everything from column 34 on moves by
   * `|f| - 10`. Only an 8-character formatted charge leaves every column
   * outside [24,34) where it was.
   */
  lemma SpliceColumns(line: string, f: string)
    requires |line| >= 34
    ensures var out := line[..24] + f + line[34..];
            && |out| == |line| + |f| - 10
            && (forall k :: 0 <= k < 24 ==> out[k] == line[k])
            && (forall k :: 34 <= k < |line| ==> out[k + |f| - 10] == line[k])
  {
  }

  /**
   * A record of 34 characters or fewer has an empty `line[34:]`, so its
   * substitution ends in the two blanks after the charge, not in a newline,
   * and the next line of the output continues on the same line of text. For
   * 25 to 34 characters the newline is dropped with the rest of column 24 on;
   * for 24 or fewer `line[:24]` is the whole line, so the newline moves in
   * front of the charge.
   */
  lemma SubstituteShortLine<Q>(line: string, rows: seq<Row<Q>>, residue: Option<string>, fmt: Q -> string)
    requires |line| <= 34 && Substitute(line, rows, residue, fmt).Success?
    ensures var q := Lookup(rows, Strip(Slice(line, 0, 7)), residue).value;
            var out := Substitute(line, rows, residue, fmt).value;
            && out == line[..Min(24, |line|)] + fmt(q) + "  "
            && out[|out| - 1] == ' '
            && (|line| > 0 && line[|line| - 1] == '\n' ==> out[|out| - 1] != line[|line| - 1])
            && (0 < |line| <= 24 ==> out[|line| - 1] == line[|line| - 1])
  {
  }

  /**
   * A substituted line of at least 34 characters keeps its lookup key, and is
   * itself long enough to be substituted again when the formatted charge has at
   * least 8 characters.
   */
  lemma SubstituteAgain<Q>(line: string, rows: seq<Row<Q>>, residue: Option<string>, fmt: Q -> string)
    requires |line| >= 34 && Substitute(line, rows, residue, fmt).Success?
    ensures var q := Lookup(rows, Strip(Slice(line, 0, 7)), residue).value;
            var out := Substitute(line, rows, residue, fmt).value;
            && out == line[..24] + (fmt(q) + "  ") + line[34..]
            && Strip(Slice(out, 0, 7)) == Strip(Slice(line, 0, 7))
            && Substitute(out, rows, residue, fmt).Success?
            && (|fmt(q)| >= 8 ==> Substitute(out, rows, residue, fmt).value == out[..24] + (fmt(q) + "  ") + out[34..])
  {
    var out := Substitute(line, rows, residue, fmt).value;
    SubstituteSplice(line, rows, residue, fmt);
    assert out[..24] == line[..24];
    assert Slice(out, 0, 7) == Slice(line, 0, 7);
    if |out| >= 34 {
      SubstituteSplice(out, rows, residue, fmt);
    }
  }

  /**
   * A contrast to `SubstituteTwiceWide`, for a formatter the program does not
   * use: for a finite charge `'{: 1.6f}'` never gives fewer than 9 characters
   * (sign slot, a digit, the point and six decimals). Only a formatted charge of exactly 8
   * characters fills the 10-column field with its two blanks, and then running
   * the substitution again over a line it produced, with the same table and
   * residue, gives the line back.
   */
  lemma SubstituteTwiceNarrow<Q>(line: string, rows: seq<Row<Q>>, residue: Option<string>, fmt: Q -> string)
    requires |line| >= 34 && Substitute(line, rows, residue, fmt).Success?
    requires |fmt(Lookup(rows, Strip(Slice(line, 0, 7)), residue).value)| == 8
    ensures Substitute(Substitute(line, rows, residue, fmt).value, rows, residue, fmt)
         == Substitute(line, rows, residue, fmt)
  {
    var out := Substitute(line, rows, residue, fmt).value;
    SubstituteAgain(line, rows, residue, fmt);
    assert out[34..] == line[34..];
  }

  /**
   * With the 9 characters `'{: 1.6f}'` produces for a finite charge of magnitude
   * below 9.9999995, substituting a line of at least 34 characters that it
   * already produced, under the same table and residue, inserts one more space
   * after the charge: re-application to a line is not idempotent.
   */
  lemma SubstituteTwiceWide<Q>(line: string, rows: seq<Row<Q>>, residue: Option<string>, fmt: Q -> string)
    requires |line| >= 34 && Substitute(line, rows, residue, fmt).Success?
    requires |fmt(Lookup(rows, Strip(Slice(line, 0, 7)), residue).value)| == 9
    ensures var out := Substitute(line, rows, residue, fmt).value;
            Substitute(out, rows, residue, fmt) == Success(out[..35] + " " + out[35..])
  {
    var q := Lookup(rows, Strip(Slice(line, 0, 7)), residue).value;
    var out := Substitute(line, rows, residue, fmt).value;
    SubstituteSplice(line, rows, residue, fmt);
    assert Slice(out, 0, 7) == Slice(line, 0, 7) by {
      assert out[..24] == line[..24];
    }
    SubstituteSplice(out, rows, residue, fmt);
    SpliceTwice(line, fmt(q) + "  ");
  }

  /** Splicing an 11-character field ending in a blank into its own result inserts that blank once more. */
  lemma SpliceTwice(line: string, f: string)
    requires |line| >= 34 && |f| == 11 && f[10] == ' '
    ensures var out := line[..24] + f + line[34..];
            out[..24] + f + out[34..] == out[..35] + " " + out[35..]
  {
  }

  // ----- the whole pass -----

  /** The residue in scope while line `i` is classified: that line has already updated it. */
  function ResidueAt<Q>(rows: seq<Row<Q>>, lines: seq<string>, i: nat): Option<string>
    requires i < |lines|
  {
    ResidueAfter(ResidueNames(rows), lines[..i + 1])
  }

  /** What the scan appends for line `i`, or the error that line raises. */
  function LineResult<Q>(rows: seq<Row<Q>>, fmt: Q -> string, lines: seq<string>, i: nat): Result<string, Error>
    requires i < |lines|
  {
    OutLine(rows, fmt, lines[i], ResidueAt(rows, lines, i))
  }

  /** A line's output does not depend on the lines after it. */
  lemma LineResultOfPrefix<Q>(rows: seq<Row<Q>>, fmt: Q -> string, lines: seq<string>, n: nat)
    requires n <= |lines|
    ensures forall i :: 0 <= i < n ==> LineResult(rows, fmt, lines[..n], i) == LineResult(rows, fmt, lines, i)
  {
    forall i | 0 <= i < n
      ensures LineResult(rows, fmt, lines[..n], i) == LineResult(rows, fmt, lines, i)
    {
      assert lines[..n][..i + 1] == lines[..i + 1];
    }
  }

  /** One step of the scan: the last line's output is appended to the outputs of the lines before it. */
  lemma RewriteStep<Q>(rows: seq<Row<Q>>, fmt: Q -> string, lines: seq<string>)
    requires lines != []
    ensures Rewrite(rows, fmt, lines).Success? <==>
              Rewrite(rows, fmt, lines[..|lines| - 1]).Success? && LineResult(rows, fmt, lines, |lines| - 1).Success?
    ensures Rewrite(rows, fmt, lines).Success? ==>
              Rewrite(rows, fmt, lines).value
              == Rewrite(rows, fmt, lines[..|lines| - 1]).value + [LineResult(rows, fmt, lines, |lines| - 1).value]
  {
    assert lines[..|lines|] == lines;
  }

  /**
   * When the scan succeeds, its output `i` is line `i` processed under the
   * residue in scope at line `i`.
   */
  lemma RewriteOutputs<Q>(rows: seq<Row<Q>>, fmt: Q -> string, lines: seq<string>)
    requires Rewrite(rows, fmt, lines).Success?
    ensures forall i :: 0 <= i < |lines| ==>
              LineResult(rows, fmt, lines, i) == Success(Rewrite(rows, fmt, lines).value[i])
  {
    forall i | 0 <= i < |lines|
      ensures LineResult(rows, fmt, lines, i) == Success(Rewrite(rows, fmt, lines).value[i])
    {
      RewriteOutputAt(rows, fmt, lines, i);
    }
  }

  /** `RewriteOutputs` for one index, by induction on the lines after it. */
  lemma {:induction false} RewriteOutputAt<Q>(rows: seq<Row<Q>>, fmt: Q -> string, lines: seq<string>, i: nat)
    requires Rewrite(rows, fmt, lines).Success? && i < |lines|
    ensures LineResult(rows, fmt, lines, i) == Success(Rewrite(rows, fmt, lines).value[i])
    decreases |lines|
  {
    if i == |lines| - 1 {
      LastOutput(rows, fmt, lines);
    } else {
      RewriteStep(rows, fmt, lines);
      RewriteOutputAt(rows, fmt, lines[..|lines| - 1], i);
      OutputOfPrefix(rows, fmt, lines, i);
    }
  }

  /** The last output of a successful scan is the last line's result. */
  lemma LastOutput<Q>(rows: seq<Row<Q>>, fmt: Q -> string, lines: seq<string>)
    requires lines != [] && Rewrite(rows, fmt, lines).Success?
    ensures LineResult(rows, fmt, lines, |lines| - 1) == Success(Rewrite(rows, fmt, lines).value[|lines| - 1])
  {
    RewriteStep(rows, fmt, lines);
  }

  /** An output before the last one is the output the scan of all lines but the last gave there. */
  lemma OutputOfPrefix<Q>(rows: seq<Row<Q>>, fmt: Q -> string, lines: seq<string>, i: nat)
    requires i < |lines| - 1 && Rewrite(rows, fmt, lines).Success?
    requires var init := lines[..|lines| - 1];
             LineResult(rows, fmt, init, i) == Success(Rewrite(rows, fmt, init).value[i])
    ensures LineResult(rows, fmt, lines, i) == Success(Rewrite(rows, fmt, lines).value[i])
  {
    var n := |lines| - 1;
    RewriteStep(rows, fmt, lines);
    assert Rewrite(rows, fmt, lines).value[i] == Rewrite(rows, fmt, lines[..n]).value[i];
    assert lines[..n][..i + 1] == lines[..i + 1];
    assert ResidueAt(rows, lines[..n], i) == ResidueAt(rows, lines, i);
    assert lines[..n][i] == lines[i];
  }

  /** The scan succeeds when every line's own output succeeds. */
  lemma {:induction false} RewriteSucceeds<Q>(rows: seq<Row<Q>>, fmt: Q -> string, lines: seq<string>)
    requires forall i :: 0 <= i < |lines| ==> LineResult(rows, fmt, lines, i).Success?
    ensures Rewrite(rows, fmt, lines).Success?
    decreases |lines|
  {
    if lines != [] {
      var n := |lines| - 1;
      LineResultOfPrefix(rows, fmt, lines, n);
      RewriteSucceeds(rows, fmt, lines[..n]);
      assert lines[..n + 1] == lines;
      assert LineResult(rows, fmt, lines, n).Success?;
    }
  }

  /** A failed scan reports the error of the first line whose output fails. */
  lemma {:induction false} RewriteFirstError<Q>(rows: seq<Row<Q>>, fmt: Q -> string, lines: seq<string>)
    requires Rewrite(rows, fmt, lines).Failure?
    ensures exists i :: && 0 <= i < |lines|
                        && LineResult(rows, fmt, lines, i) == Failure(Rewrite(rows, fmt, lines).error)
                        && forall j :: 0 <= j < i ==> LineResult(rows, fmt, lines, j).Success?
    decreases |lines|
  {
    var n := |lines| - 1;
    LineResultOfPrefix(rows, fmt, lines, n);
    assert lines[..n + 1] == lines;
    if Rewrite(rows, fmt, lines[..n]).Failure? {
      RewriteFirstError(rows, fmt, lines[..n]);
      var i :| && 0 <= i < n
               && LineResult(rows, fmt, lines[..n], i) == Failure(Rewrite(rows, fmt, lines[..n]).error)
               && forall j :: 0 <= j < i ==> LineResult(rows, fmt, lines[..n], j).Success?;
      assert LineResult(rows, fmt, lines, i) == Failure(Rewrite(rows, fmt, lines).error);
    } else {
      forall j | 0 <= j < n
        ensures LineResult(rows, fmt, lines, j).Success?
      {
        RewriteOutputAt(rows, fmt, lines[..n], j);
      }
      assert LineResult(rows, fmt, lines, n) == Failure(Rewrite(rows, fmt, lines).error);
    }
  }

  /** Lines that are not charge records reach the output unchanged. */
  lemma NonRecordsCopied<Q>(rows: seq<Row<Q>>, fmt: Q -> string, lines: seq<string>, i: nat)
    requires Rewrite(rows, fmt, lines).Success? && i < |lines|
    requires !IsChargeRecord(AtomNames(rows), lines[i])
    ensures Rewrite(rows, fmt, lines).value[i] == lines[i]
  {
    RewriteOutputs(rows, fmt, lines);
    assert LineResult(rows, fmt, lines, i) == Success(Rewrite(rows, fmt, lines).value[i]);
  }

  /**
   * A charge record is replaced by its substituted form: a residue was in
   * scope, and the charge written is that of the first table row keyed by the
   * record's stripped atom name and that residue.
   */
  lemma RecordsSubstituted<Q>(rows: seq<Row<Q>>, fmt: Q -> string, lines: seq<string>, i: nat)
    requires Rewrite(rows, fmt, lines).Success? && i < |lines|
    requires IsChargeRecord(AtomNames(rows), lines[i])
    ensures ResidueAt(rows, lines, i).Some?
    ensures Substitute(lines[i], rows, ResidueAt(rows, lines, i), fmt) == Success(Rewrite(rows, fmt, lines).value[i])
    ensures exists k :: FirstMatchAt(rows, Strip(Slice(lines[i], 0, 7)), ResidueAt(rows, lines, i), k)
  {
    RewriteOutputs(rows, fmt, lines);
    assert LineResult(rows, fmt, lines, i).Success?;
  }

  lemma {:induction false} ConcatAppend(a: seq<string>, b: seq<string>)
    ensures Concat(a + b) == Concat(a) + Concat(b)
    decreases |b|
  {
    if b == [] {
      assert a + b == a;
    } else {
      var n := |b| - 1;
      var ab := a + b;
      assert ab[..|ab| - 1] == a + b[..n];
      assert ab[|ab| - 1] == b[n];
      ConcatAppend(a, b[..n]);
      calc {
        Concat(ab);
        Concat(a + b[..n]) + b[n];
        Concat(a) + Concat(b[..n]) + b[n];
        Concat(a) + (Concat(b[..n]) + b[n]);
      }
    }
  }

  /** The output text holds the outputs of the lines in their order: output `i` sits between those before and after it. */
  lemma ConcatInOrder(parts: seq<string>, i: nat)
    requires i < |parts|
    ensures Concat(parts) == Concat(parts[..i]) + parts[i] + Concat(parts[i + 1..])
  {
    var front := parts[..i + 1];
    assert parts == front + parts[i + 1..];
    ConcatAppend(front, parts[i + 1..]);
    assert front[..i] == parts[..i];
    assert Concat(front) == Concat(parts[..i]) + parts[i];
  }

  /** The positions of `true` in `bs`. */
  ghost function TrueAt(bs: seq<bool>): set<int>
  {
    set i | 0 <= i < |bs| && bs[i]
  }

  lemma {:induction false} TrueAtStep(bs: seq<bool>)
    requires bs != []
    ensures |TrueAt(bs)| == |TrueAt(bs[..|bs| - 1])| + (if bs[|bs| - 1] then 1 else 0)
  {
    var n := |bs| - 1;
    var before := TrueAt(bs[..n]);
    assert before == set i | 0 <= i < n && bs[i];
    if bs[n] {
      assert TrueAt(bs) == before + {n};
    } else {
      assert TrueAt(bs) == before;
    }
  }

  /** Which lines of `lines` are charge records. */
  function RecordFlags(atoms: seq<string>, lines: seq<string>): (f: seq<bool>)
    ensures |f| == |lines| && forall i :: 0 <= i < |lines| ==> f[i] == IsChargeRecord(atoms, lines[i])
  {
    seq(|lines|, i requires 0 <= i < |lines| => IsChargeRecord(atoms, lines[i]))
  }

  /** The substitution count is the number of lines that are charge records. */
  lemma CountIsNumberOfRecords(atoms: seq<string>, lines: seq<string>)
    ensures CountRecords(atoms, lines) == |set i | 0 <= i < |lines| && IsChargeRecord(atoms, lines[i])|
  {
    var flags := RecordFlags(atoms, lines);
    assert (set i | 0 <= i < |lines| && IsChargeRecord(atoms, lines[i])) == TrueAt(flags);
    CountIsFlagCount(atoms, lines);
  }

  lemma {:induction false} CountIsFlagCount(atoms: seq<string>, lines: seq<string>)
    ensures CountRecords(atoms, lines) == |TrueAt(RecordFlags(atoms, lines))|
    decreases |lines|
  {
    if lines != [] {
      var n := |lines| - 1;
      CountIsFlagCount(atoms, lines[..n]);
      var flags := RecordFlags(atoms, lines);
      TrueAtStep(flags);
      assert flags[..n] == RecordFlags(atoms, lines[..n]);
    }
  }

  /**
   * `parse_rft` returns a text exactly when every charge record finds its
   * charge and the number of charge records equals the number of table rows;
   * the text is then the line outputs in order. If every lookup succeeds but
   * the counts differ, it fails reporting both counts.
   */
  lemma ParseRftAccepted<Q>(rows: seq<Row<Q>>, fmt: Q -> string, lines: seq<string>)
    ensures ParseRftResult(rows, fmt, lines).Success?
            <==> && (forall i :: 0 <= i < |lines| ==> LineResult(rows, fmt, lines, i).Success?)
                 && |set i | 0 <= i < |lines| && IsChargeRecord(AtomNames(rows), lines[i])| == |rows|
    ensures ParseRftResult(rows, fmt, lines).Success? ==>
              exists outs :: && |outs| == |lines|
                             && ParseRftResult(rows, fmt, lines).value == Concat(outs)
                             && forall i :: 0 <= i < |lines| ==> LineResult(rows, fmt, lines, i) == Success(outs[i])
    ensures Rewrite(rows, fmt, lines).Success? && ParseRftResult(rows, fmt, lines).Failure? ==>
              ParseRftResult(rows, fmt, lines).error
              == CountMismatch(|rows|, |set i | 0 <= i < |lines| && IsChargeRecord(AtomNames(rows), lines[i])|)
  {
    CountIsNumberOfRecords(AtomNames(rows), lines);
    if Rewrite(rows, fmt, lines).Success? {
      RewriteOutputs(rows, fmt, lines);
    } else {
      RewriteFirstError(rows, fmt, lines);
    }
    if forall i :: 0 <= i < |lines| ==> LineResult(rows, fmt, lines, i).Success? {
      RewriteSucceeds(rows, fmt, lines);
    }
  }
}
