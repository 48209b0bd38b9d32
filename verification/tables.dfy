/** The spectrum tables the pipeline stages pass to each other as CSV files.
    A row holds an observation id, a star-type label and three column families,
    `wavelength_<i>`, `flux_<i>` and `ivar_<i>`; family position `i` is column
    `<family>_<i>`. */
module Tables {
  import opened Values

  datatype Family = Wavelength | Flux | Ivar

  datatype Row = Row(obsid: int, stype: string, wavelength: seq<Val>, flux: seq<Val>, ivar: seq<Val>) {

    function Get(f: Family): seq<Val> {
      match f
      case Wavelength => wavelength
      case Flux => flux
      case Ivar => ivar
    }

    function Put(f: Family, s: seq<Val>): (r: Row)
      ensures r.Get(f) == s && r.obsid == obsid && r.stype == stype
      ensures forall g :: g != f ==> r.Get(g) == Get(g)
      ensures r.wavelength == (if f == Wavelength then s else wavelength)
      ensures r.flux == (if f == Flux then s else flux) && r.ivar == (if f == Ivar then s else ivar)
    {
      match f
      case Wavelength => this.(wavelength := s)
      case Flux => this.(flux := s)
      case Ivar => this.(ivar := s)
    }

    /** Putting back what a family holds changes nothing; a second put wins. */
    lemma PutLaws(f: Family, s: seq<Val>, s': seq<Val>)
      ensures Put(f, Get(f)) == this
      ensures Put(f, s).Put(f, s') == Put(f, s')
    {
    }
  }

  /** Position `i` of `s` set to `x`, the sequence growing by one when `i` is
      its length. */
  function Assign(s: seq<Val>, i: nat, x: Val): (r: seq<Val>)
    requires i <= |s|
    ensures |r| == (if i < |s| then |s| else |s| + 1) && r[i] == x
    ensures forall j :: 0 <= j < |s| && j != i ==> r[j] == s[j]
  {
    if i < |s| then s[i := x] else s + [x]
  }

  /** A table: whether its `obsid` and `type` columns exist, how many columns each
      family has, and its rows. */
  datatype Table = Table(hasObsid: bool, hasType: bool, nWave: nat, nFlux: nat, nIvar: nat, rows: seq<Row>) {

    function Width(f: Family): nat {
      match f
      case Wavelength => nWave
      case Flux => nFlux
      case Ivar => nIvar
    }

    function WithWidth(f: Family, w: nat): (t: Table)
      ensures t.Width(f) == w && forall g :: g != f ==> t.Width(g) == Width(g)
      ensures t.hasObsid == hasObsid && t.hasType == hasType && t.rows == rows
    {
      match f
      case Wavelength => this.(nWave := w)
      case Flux => this.(nFlux := w)
      case Ivar => this.(nIvar := w)
    }

    /** Every row has as many cells in each family as the family has columns. */
    predicate WellFormed() {
      forall k :: 0 <= k < |rows| ==>
        |rows[k].wavelength| == nWave && |rows[k].flux| == nFlux && |rows[k].ivar| == nIvar
    }

    /** pandas `df.loc[idx, <f>_cols] = s`: one row's whole family replaced. */
    function SetFamily(idx: nat, f: Family, s: seq<Val>): (t: Table)
      requires WellFormed() && idx < |rows| && |s| == Width(f)
      ensures t.WellFormed() && |t.rows| == |rows|
      ensures t.hasObsid == hasObsid && t.hasType == hasType && forall g :: t.Width(g) == Width(g)
      ensures forall k :: 0 <= k < |rows| ==> t.rows[k] == if k == idx then rows[k].Put(f, s) else rows[k]
    {
      this.(rows := rows[idx := rows[idx].Put(f, s)])
    }

    /** pandas `df.loc[idx, '<f>_<i>'] = v`. When `<f>_<i>` is not yet a column it is
        appended, and every other row gets NaN in it. */
    function SetCell(idx: nat, f: Family, i: nat, v: Val): (t: Table)
      requires WellFormed() && idx < |rows| && i <= Width(f)
      ensures t.WellFormed() && |t.rows| == |rows|
      ensures t.hasObsid == hasObsid && t.hasType == hasType
      ensures t.Width(f) == (if i < Width(f) then Width(f) else Width(f) + 1)
      ensures forall g :: g != f ==> t.Width(g) == Width(g)
      ensures forall k :: 0 <= k < |rows| ==>
        t.rows[k] == if k == idx then rows[k].Put(f, Assign(rows[k].Get(f), i, v))
                     else if i < Width(f) then rows[k]
                     else rows[k].Put(f, rows[k].Get(f) + [NaN])
      ensures i < Width(f) ==> t == SetFamily(idx, f, Assign(rows[idx].Get(f), i, v))
    {
      RowWidth(idx, f);
      if i < Width(f) then SetFamily(idx, f, rows[idx].Get(f)[i := v])
      else AddColumn(idx, f, v)
    }

    /** Writing back what a row's family holds changes nothing. */
    lemma SetFamilySame(idx: nat, f: Family)
      requires WellFormed() && idx < |rows|
      ensures |rows[idx].Get(f)| == Width(f) && SetFamily(idx, f, rows[idx].Get(f)) == this
    {
      rows[idx].PutLaws(f, rows[idx].Get(f), rows[idx].Get(f));
      assert rows[idx := rows[idx]] == rows;
    }

    /** Of two writes to the same row's family, the second wins. */
    lemma SetFamilyTwice(idx: nat, f: Family, s: seq<Val>, s': seq<Val>)
      requires WellFormed() && idx < |rows| && |s| == |s'| == Width(f)
      ensures SetFamily(idx, f, s).SetFamily(idx, f, s') == SetFamily(idx, f, s')
    {
      rows[idx].PutLaws(f, s, s');
      assert SetFamily(idx, f, s).SetFamily(idx, f, s').rows == SetFamily(idx, f, s').rows;
    }

    /** A new last column of family `f`, holding `v` in row `idx` and NaN in
        every other row. */
    function AddColumn(idx: nat, f: Family, v: Val): (t: Table)
      requires WellFormed() && idx < |rows|
      ensures t.WellFormed() && |t.rows| == |rows| && t.hasObsid == hasObsid && t.hasType == hasType
      ensures t.Width(f) == Width(f) + 1 && forall g :: g != f ==> t.Width(g) == Width(g)
      ensures forall k :: 0 <= k < |rows| ==> t.rows[k] == rows[k].Put(f, rows[k].Get(f) + [if k == idx then v else NaN])
    {
      var grown := seq(|rows|, k requires 0 <= k < |rows| =>
                       rows[k].Put(f, rows[k].Get(f) + [if k == idx then v else NaN]));
      forall k | 0 <= k < |rows| ensures |grown[k].Get(f)| == Width(f) + 1 {
        RowWidth(k, f);
      }
      this.(rows := grown).WithWidth(f, Width(f) + 1)
    }

    /** A well-formed table's row holds as many cells of a family as it has
        columns. */
    lemma RowWidth(k: nat, f: Family)
      requires WellFormed() && k < |rows|
      ensures |rows[k].Get(f)| == Width(f)
    {
    }
  }
}
