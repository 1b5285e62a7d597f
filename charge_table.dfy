/**
 * The charge table: the rows of the fitted-charge CSV (columns `atom`,
 * `residue`, `q`) held in memory, in file order. The charge type `Q` is left
 * abstract: nothing in the substitution computes with a charge, it is only
 * looked up and formatted.
 */
module ChargeTable {
  import opened Wrappers

  datatype Row<Q> = Row(atom: string, residue: string, charge: Q)

  /** The `atom` column, `charges.atom`. */
  function AtomColumn<Q>(rows: seq<Row<Q>>): (c: seq<string>)
    ensures |c| == |rows| && forall i :: 0 <= i < |rows| ==> c[i] == rows[i].atom
  {
    seq(|rows|, i requires 0 <= i < |rows| => rows[i].atom)
  }

  /** The `residue` column, `charges.residue`. */
  function ResidueColumn<Q>(rows: seq<Row<Q>>): (c: seq<string>)
    ensures |c| == |rows| && forall i :: 0 <= i < |rows| ==> c[i] == rows[i].residue
  {
    seq(|rows|, i requires 0 <= i < |rows| => rows[i].residue)
  }

  /** Position of the first occurrence of `x` in `xs`. */
  function IndexOf(xs: seq<string>, x: string): (i: nat)
    requires x in xs
    ensures i < |xs| && xs[i] == x && forall j :: 0 <= j < i ==> xs[j] != x
  {
    if xs[0] == x then 0 else 1 + IndexOf(xs[1..], x)
  }

  lemma {:induction false} IndexOfAppend(xs: seq<string>, y: string, x: string)
    requires x in xs
    ensures x in xs + [y] && IndexOf(xs + [y], x) == IndexOf(xs, x)
  {
    var i := IndexOf(xs, x);
    var j := IndexOf(xs + [y], x);
    assert (xs + [y])[i] == x;
    assert xs[j] == x by { assert j <= i; }
  }

  /**
   * pandas' `Series.unique()`: the distinct values of `xs`, each once, in the
   * order in which they first appear.
   */
  function Unique(xs: seq<string>): (u: seq<string>)
    ensures forall x :: x in u <==> x in xs
    ensures forall i, j :: 0 <= i < j < |u| ==> u[i] != u[j]
    ensures forall i, j :: 0 <= i < j < |u| ==> IndexOf(xs, u[i]) < IndexOf(xs, u[j])
    decreases |xs|
  {
    if xs == [] then []
    else
      var init := xs[..|xs| - 1];
      var last := xs[|xs| - 1];
      assert xs == init + [last];
      var u := Unique(init);
      forall x | x in init ensures IndexOf(xs, x) == IndexOf(init, x) {
        IndexOfAppend(init, last, x);
      }
      if last in u then u
      else
        assert last !in init;
        assert IndexOf(xs, last) == |init|;
        u + [last]
  }

  /** Row `row` answers the pandas mask `(charges.atom == atom) & (charges.residue == residue)`. */
  predicate KeyMatches<Q>(row: Row<Q>, atom: string, residue: Option<string>)
  {
    residue == Some(row.residue) && row.atom == atom
  }

  /** Row `i` is the first row of the table that matches the key. */
  ghost predicate FirstMatchAt<Q>(rows: seq<Row<Q>>, atom: string, residue: Option<string>, i: int)
  {
    && 0 <= i < |rows|
    && KeyMatches(rows[i], atom, residue)
    && forall j :: 0 <= j < i ==> !KeyMatches(rows[j], atom, residue)
  }

  /**
   * `charges[mask].q.values[0]`: the charge of the first row whose atom and
   * residue are the key. `None` stands for the empty selection (an index error
   * in the source); a missing residue (`None`) never matches a row.
   */
  function Lookup<Q>(rows: seq<Row<Q>>, atom: string, residue: Option<string>): (r: Option<Q>)
    ensures r.None? <==> forall i :: 0 <= i < |rows| ==> !KeyMatches(rows[i], atom, residue)
    ensures r.Some? ==> exists i :: FirstMatchAt(rows, atom, residue, i) && rows[i].charge == r.value
  {
    if rows == [] then None
    else if KeyMatches(rows[0], atom, residue) then
      Some(rows[0].charge)
    else
      var r := Lookup(rows[1..], atom, residue);
      assert forall i :: 0 <= i < |rows| - 1 ==> rows[1..][i] == rows[i + 1];
      r
  }
}
