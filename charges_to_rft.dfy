/**
 * The charge substitution of `charges_to_rft.py`: one ordered pass over the
 * lines of a topology file that tracks the residue in scope, recognises the
 * atom-charge records, splices the fitted charge into columns 24..34 of each,
 * and accepts the result only if it rewrote exactly one line per table row.
 *
 * The charge type `Q` is abstract and `fmt` stands for Python's
 * `'{: 1.6f}'.format(q)`; lines keep their trailing newline, as
 * `readlines()` leaves them.
 */
module ChargesToRft {
  import opened Wrappers
  import opened PyText
  import opened ChargeTable

  datatype Error =
    | LookupMiss(atom: string, residue: Option<string>)   // `.values[0]` of an empty selection
    | CountMismatch(rows: nat, substitutions: nat)        // the final `assert` fails

  /** `charges.atom.unique()` */
  function AtomNames<Q>(rows: seq<Row<Q>>): seq<string>
  {
    Unique(AtomColumn(rows))
  }

  /** `charges.residue.unique()` */
  function ResidueNames<Q>(rows: seq<Row<Q>>): seq<string>
  {
    Unique(ResidueColumn(rows))
  }

  // ----- residue tracking -----

  /** No name before position `k` of `names` occurs in `line`. */
  ghost predicate NoneBefore(names: seq<string>, line: string, k: int)
  {
    forall j :: 0 <= j < k && j < |names| ==> !Contains(line, names[j])
  }

  /**
   * The first of `names` that occurs in `line`, the residue the inner loop
   * over residue names stops at.
   */
  function FirstContained(names: seq<string>, line: string): Option<string>
  {
    if names == [] then None
    else if Contains(line, names[0]) then Some(names[0])
    else FirstContained(names[1..], line)
  }

  /** `FirstContained` finds a name exactly when some name occurs, and then it is the first such name. */
  lemma {:induction false} FirstContainedSpec(names: seq<string>, line: string)
    ensures FirstContained(names, line).None? <==> NoneBefore(names, line, |names|)
    ensures FirstContained(names, line).Some? ==>
              exists k :: && 0 <= k < |names| && names[k] == FirstContained(names, line).value
                          && Contains(line, names[k]) && NoneBefore(names, line, k)
  {
    if names != [] && !Contains(line, names[0]) {
      FirstContainedSpec(names[1..], line);
      assert forall j :: 0 <= j < |names| - 1 ==> names[1..][j] == names[j + 1];
      if FirstContained(names, line).Some? {
        var k :| && 0 <= k < |names| - 1 && names[1..][k] == FirstContained(names, line).value
                 && Contains(line, names[1..][k]) && NoneBefore(names[1..], line, k);
        assert NoneBefore(names, line, k + 1);
      }
    }
    if names != [] && Contains(line, names[0]) {
      assert NoneBefore(names, line, 0);
    }
  }

  /** The residue in scope after `line`: a residue name it contains, else `current`. */
  function NextResidue(names: seq<string>, line: string, current: Option<string>): Option<string>
  {
    match FirstContained(names, line)
    case Some(name) => Some(name)
    case None => current
  }

  /** `current_residuum` once every line of `lines` has been scanned; it starts as `None`. */
  function ResidueAfter(names: seq<string>, lines: seq<string>): Option<string>
    decreases |lines|
  {
    if lines == [] then None
    else NextResidue(names, lines[|lines| - 1], ResidueAfter(names, lines[..|lines| - 1]))
  }

  // ----- record classification -----

  /** `line[8:18].replace('+', '').replace('-', '').strip()` */
  function SecondEntry(line: string): string
  {
    Strip(RemoveAll(RemoveAll(Slice(line, 8, 18), '+'), '-'))
  }

  /**
   * The line is an atom-charge record: some atom name occurs in `line[0:7]`,
   * and the cleaned second column is not itself an atom name.
   */
  predicate IsChargeRecord(atoms: seq<string>, line: string)
  {
    && (exists k :: 0 <= k < |atoms| && Contains(Slice(line, 0, 7), atoms[k]))
    && SecondEntry(line) !in atoms
  }

  /**
   * The atom-name loop substitutes and breaks when it reaches `name`: the name
   * occurs in the atom field `line[0:7]` and the cleaned second entry is not
   * an atom name.
   */
  predicate BreaksAt(atoms: seq<string>, atomField: string, secondEntry: string, name: string)
  {
    Contains(atomField, name) && secondEntry !in atoms
  }

  /**
   * The atom name at which the loop over `candidates` breaks to substitute,
   * when `atoms` is the full list the second column is checked against.
   */
  function MatchedAtom(candidates: seq<string>, atoms: seq<string>, line: string): Option<string>
    decreases |candidates|
  {
    if candidates == [] then None
    else if BreaksAt(atoms, Slice(line, 0, 7), SecondEntry(line), candidates[0]) then
      Some(candidates[0])
    else MatchedAtom(candidates[1..], atoms, line)
  }

  // ----- substitution -----

  /** The length of `line[:24]`. */
  function HeadLength(line: string): nat { Min(24, |line|) }

  /** The length of `line[34:]`. */
  function TailLength(line: string): nat { if |line| <= 34 then 0 else |line| - 34 }

  /**
   * `substitute`: looks up `(line[0:7].strip(), residue)` and writes the first
   * matching row's charge, formatted and followed by two spaces, in place of
   * `line[24:34]`. The first 24 characters and everything from column 34 on
   * are kept verbatim, and nothing else of the line survives.
   */
  function Substitute<Q>(line: string, rows: seq<Row<Q>>, residue: Option<string>, fmt: Q -> string)
    : (r: Result<string, Error>)
    ensures r.Failure? <==> Lookup(rows, Strip(Slice(line, 0, 7)), residue).None?
    ensures r.Failure? ==> r.error == LookupMiss(Strip(Slice(line, 0, 7)), residue)
    ensures residue.None? ==> r.Failure?
    ensures r.Success? ==>
              var q := Lookup(rows, Strip(Slice(line, 0, 7)), residue).value;
              var h := HeadLength(line);
              var out := r.value;
              && |out| == h + |fmt(q)| + 2 + TailLength(line)
              && out[..h] == line[..h]
              && out[h..h + |fmt(q)| + 2] == fmt(q) + "  "
              && out[h + |fmt(q)| + 2..] == line[|line| - TailLength(line)..]
  {
    var atom := Strip(Slice(line, 0, 7));
    match Lookup(rows, atom, residue)
    case None => Failure(LookupMiss(atom, residue))
    case Some(q) =>
      var head := Slice(line, 0, 24);
      var tail := Slice(line, 34, |line|);
      assert head == line[..HeadLength(line)];
      assert tail == line[|line| - TailLength(line)..];
      Success(head + (fmt(q) + "  ") + tail)
  }

  // ----- the pass over the file, as a fold -----

  /** What the scan appends for one line whose residue in scope is `residue`. */
  function OutLine<Q>(rows: seq<Row<Q>>, fmt: Q -> string, line: string, residue: Option<string>)
    : Result<string, Error>
  {
    if IsChargeRecord(AtomNames(rows), line) then Substitute(line, rows, residue, fmt)
    else Success(line)
  }

  /**
   * The per-line outputs of scanning `lines` in order, or the error of the
   * first line whose substitution fails.
   */
  function Rewrite<Q>(rows: seq<Row<Q>>, fmt: Q -> string, lines: seq<string>): (r: Result<seq<string>, Error>)
    ensures r.Success? ==> |r.value| == |lines|
    decreases |lines|
  {
    if lines == [] then Success([])
    else
      match Rewrite(rows, fmt, lines[..|lines| - 1])
      case Failure(e) => Failure(e)
      case Success(outs) =>
        match OutLine(rows, fmt, lines[|lines| - 1], ResidueAfter(ResidueNames(rows), lines))
        case Failure(e) => Failure(e)
        case Success(out) => Success(outs + [out])
  }

  /** The number of lines of `lines` that are charge records. */
  function CountRecords(atoms: seq<string>, lines: seq<string>): (n: nat)
    ensures n <= |lines|
    decreases |lines|
  {
    if lines == [] then 0
    else CountRecords(atoms, lines[..|lines| - 1]) + (if IsChargeRecord(atoms, lines[|lines| - 1]) then 1 else 0)
  }

  /** `sub_text`: the line outputs joined in order. */
  function Concat(parts: seq<string>): string
    decreases |parts|
  {
    if parts == [] then "" else Concat(parts[..|parts| - 1]) + parts[|parts| - 1]
  }

  /** What `parse_rft` returns, or the exception it raises. */
  function ParseRftResult<Q>(rows: seq<Row<Q>>, fmt: Q -> string, lines: seq<string>): Result<string, Error>
  {
    match Rewrite(rows, fmt, lines)
    case Failure(e) => Failure(e)
    case Success(outs) =>
      var n := CountRecords(AtomNames(rows), lines);
      if n == |rows| then Success(Concat(outs)) else Failure(CountMismatch(|rows|, n))
  }

  lemma {:induction false} RewriteFailurePersists<Q>(rows: seq<Row<Q>>, fmt: Q -> string, lines: seq<string>, i: nat)
    requires i <= |lines| && Rewrite(rows, fmt, lines[..i]).Failure?
    ensures Rewrite(rows, fmt, lines) == Rewrite(rows, fmt, lines[..i])
    decreases |lines| - i
  {
    if i < |lines| {
      assert lines[..i + 1][..i] == lines[..i];
      RewriteFailurePersists(rows, fmt, lines, i + 1);
    } else {
      assert lines[..i] == lines;
    }
  }

  /** Proof step for `ParseRft`: the residue and count folds unfolded from the first `i` lines to the first `i + 1`. */
  lemma ScanStep(atoms: seq<string>, residueNames: seq<string>, lines: seq<string>, i: nat)
    requires i < |lines|
    ensures ResidueAfter(residueNames, lines[..i + 1])
         == NextResidue(residueNames, lines[i], ResidueAfter(residueNames, lines[..i]))
    ensures CountRecords(atoms, lines[..i + 1])
         == CountRecords(atoms, lines[..i]) + if IsChargeRecord(atoms, lines[i]) then 1 else 0
  {
    assert lines[..i + 1][..i] == lines[..i];
  }

  /** Proof step for `ParseRft`: the outputs of the first `i + 1` lines, given those of the first `i` and line i's. */
  lemma RewriteExtend<Q>(rows: seq<Row<Q>>, fmt: Q -> string, lines: seq<string>, i: nat,
                         outs: seq<string>, out: Result<string, Error>)
    requires i < |lines| && Rewrite(rows, fmt, lines[..i]) == Success(outs)
    requires out == OutLine(rows, fmt, lines[i], ResidueAfter(ResidueNames(rows), lines[..i + 1]))
    ensures Rewrite(rows, fmt, lines[..i + 1]) == if out.Failure? then Failure(out.error) else Success(outs + [out.value])
  {
    assert lines[..i + 1][..i] == lines[..i];
  }

  /**
   * The loop over the residue names inside `parse_rft`: the first name that
   * occurs in the line becomes the residue in scope; otherwise it stays.
   */
  method TrackResidue(residueNames: seq<string>, line: string, current: Option<string>)
    returns (next: Option<string>)
    ensures next == NextResidue(residueNames, line, current)
  {
    next := current;
    var j := 0;
    while j < |residueNames|
      invariant 0 <= j <= |residueNames|
      invariant FirstContained(residueNames[j..], line) == FirstContained(residueNames, line)
      invariant next == current
    {
      if Contains(line, residueNames[j]) {
        next := Some(residueNames[j]);
        break;
      }
      assert residueNames[j..][1..] == residueNames[j + 1..];
      j := j + 1;
    }
  }

  /**
   * The loop over the atom names inside `parse_rft`: it substitutes at the
   * first atom name found in `line[0:7]` whose line does not name an atom in
   * its second column, and stops there. `rewritten` says whether it did.
   */
  method RewriteLine<Q>(rows: seq<Row<Q>>, atomNames: seq<string>, line: string,
                        currentResidue: Option<string>, fmt: Q -> string)
    returns (out: Result<string, Error>, rewritten: bool)
    ensures rewritten == IsChargeRecord(atomNames, line)
    ensures rewritten == MatchedAtom(atomNames, atomNames, line).Some?
    ensures out == if rewritten then Substitute(line, rows, currentResidue, fmt) else Success(line)
  {
    out, rewritten := Success(line), false;
    var k := 0;
    while k < |atomNames|
      invariant 0 <= k <= |atomNames|
      invariant out == Success(line) && !rewritten
      invariant forall m :: 0 <= m < k ==> !BreaksAt(atomNames, Slice(line, 0, 7), SecondEntry(line), atomNames[m])
      invariant MatchedAtom(atomNames[k..], atomNames, line) == MatchedAtom(atomNames, atomNames, line)
    {
      // an atom name occurs in the atom field ...
      if Contains(Slice(line, 0, 7), atomNames[k]) {
        var secondEntry := SecondEntry(line);
        // ... and the second column is not an atom name
        if secondEntry !in atomNames {
          out := Substitute(line, rows, currentResidue, fmt);
          rewritten := true;
          break;
        }
      }
      assert atomNames[k..][1..] == atomNames[k + 1..];
      k := k + 1;
    }
  }

  /**
   * `parse_rft` over the lines of the file: the scan that carries the residue
   * in scope, the substitution counter and the text buffer, then checks the
   * count against the number of table rows.
   */
  method ParseRft<Q>(lines: seq<string>, rows: seq<Row<Q>>, fmt: Q -> string) returns (r: Result<string, Error>)
    ensures r == ParseRftResult(rows, fmt, lines)
  {
    var atomNames := AtomNames(rows);
    var residueNames := ResidueNames(rows);
    var subText := "";
    var nrSubstitutions := 0;
    var currentResidue: Option<string> := None;
    ghost var outs: seq<string> := [];
    var i := 0;
    while i < |lines|
      invariant 0 <= i <= |lines|
      invariant currentResidue == ResidueAfter(residueNames, lines[..i])
      invariant nrSubstitutions == CountRecords(atomNames, lines[..i])
      invariant Rewrite(rows, fmt, lines[..i]) == Success(outs)
      invariant subText == Concat(outs)
    {
      ScanStep(atomNames, residueNames, lines, i);
      currentResidue := TrackResidue(residueNames, lines[i], currentResidue);
      var out, rewritten := RewriteLine(rows, atomNames, lines[i], currentResidue, fmt);
      RewriteExtend(rows, fmt, lines, i, outs, out);
      if out.Failure? {
        RewriteFailurePersists(rows, fmt, lines, i + 1);
        return Failure(out.error);
      }
      if rewritten {
        nrSubstitutions := nrSubstitutions + 1;
      }
      assert (outs + [out.value])[..|outs|] == outs;
      subText := subText + out.value;
      outs := outs + [out.value];
      i := i + 1;
    }
    assert lines[..i] == lines;

    // the closing count check
    if nrSubstitutions != |rows| {
      return Failure(CountMismatch(|rows|, nrSubstitutions));
    }
    return Success(subText);
  }
}
