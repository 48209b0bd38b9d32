/** Reading the catalogue spectra (src/spectra_read.py): the inverse-variance
    filter `filter_low_snr_data`, and the part of `process_spectra_data` that
    collects one record per observation id, visiting the type directories A, F
    and G in that order, and flattens the records into table rows. Opening the
    FITS files is not modelled: each file is given as what the reader would get
    from it. */
module SpectraRead {
  import opened Values
  import opened Stats
  import opened Masking
  import opened Tables
  import opened Resampler

  // ---- filter_low_snr_data ----

  /** The three filtered arrays, in the stage's return order. */
  datatype Filtered = Filtered(flux: seq<Val>, ivar: seq<Val>, wavelength: seq<Val>)

  /** `np.median(ivar) * threshold_ratio`. */
  function SnrThreshold(ivar: seq<Val>, ratio: real): Val {
    Scale(Median(ivar), ratio)
  }

  /** `ivar >= threshold`. */
  function SnrMask(ivar: seq<Val>, ratio: real): (m: seq<bool>)
    ensures |m| == |ivar|
  {
    var th := SnrThreshold(ivar, ratio);
    seq(|ivar|, i requires 0 <= i < |ivar| => Le(th, ivar[i]))
  }

  /** `flux[mask], ivar[mask], wavelength[mask]`; `None` is the IndexError numpy
      raises when an array's length differs from the mask's. */
  function FilterLowSnr(flux: seq<Val>, ivar: seq<Val>, wavelength: seq<Val>, ratio: real): Option<Filtered> {
    if |flux| != |ivar| || |wavelength| != |ivar| then None
    else
      var m := SnrMask(ivar, ratio);
      Some(Filtered(Select(flux, m), Select(ivar, m), Select(wavelength, m)))
  }

  /** The filter fails exactly on arrays of different lengths. Otherwise it
      returns three equal-length sequences holding, in their original order, the
      values at exactly the positions whose inverse variance is at least the
      threshold; no more values than it was given, every returned inverse
      variance at least the threshold. */
  lemma FilterSpec(flux: seq<Val>, ivar: seq<Val>, wavelength: seq<Val>, ratio: real)
    ensures FilterLowSnr(flux, ivar, wavelength, ratio).Some? <==> |flux| == |ivar| == |wavelength|
    ensures FilterLowSnr(flux, ivar, wavelength, ratio).Some? ==>
      var r, ks, th := FilterLowSnr(flux, ivar, wavelength, ratio).value, Kept(SnrMask(ivar, ratio)), SnrThreshold(ivar, ratio);
      && |r.flux| == |r.ivar| == |r.wavelength| == |ks| <= |ivar|
      && (forall k :: 0 <= k < |ks| ==>
            && ks[k] < |ivar|
            && r.flux[k] == flux[ks[k]] && r.ivar[k] == ivar[ks[k]] && r.wavelength[k] == wavelength[ks[k]]
            && Le(th, r.ivar[k]))
      && (forall k, l :: 0 <= k < l < |ks| ==> ks[k] < ks[l])
      && (forall i :: 0 <= i < |ivar| ==> (i in ks <==> Le(th, ivar[i])))
  {
    if |flux| == |ivar| == |wavelength| {
      var m := SnrMask(ivar, ratio);
      SelectIsKept(flux, m);
      SelectIsKept(ivar, m);
      SelectIsKept(wavelength, m);
    }
  }

  /** With a ratio between 0 and 1 and a median that is a non-negative number,
      every position whose inverse variance is at least the median survives. */
  lemma AtLeastMedianSurvives(ivar: seq<Val>, ratio: real, i: nat)
    requires 0.0 <= ratio <= 1.0 && i < |ivar|
    requires Median(ivar).Num? && Median(ivar).r >= 0.0
    requires Le(Median(ivar), ivar[i])
    ensures SnrMask(ivar, ratio)[i]
  {
    ScaledBelow(Median(ivar), ratio, ivar[i]);
  }

  /** A non-negative number scaled by a ratio in [0, 1] is at most itself. */
  lemma ScaledBelow(md: Val, ratio: real, v: Val)
    requires 0.0 <= ratio <= 1.0 && md.Num? && md.r >= 0.0 && Le(md, v)
    ensures Le(Scale(md, ratio), v)
  {
    assert md.r * ratio <= md.r * 1.0;
  }

  /** With ratio 0, a spectrum whose inverse variances are all finite and not
      negative loses nothing. */
  lemma RatioZeroKeepsAll(flux: seq<Val>, ivar: seq<Val>, wavelength: seq<Val>)
    requires |flux| == |ivar| == |wavelength|
    requires forall i :: 0 <= i < |ivar| ==> ivar[i].Num? && ivar[i].r >= 0.0
    ensures FilterLowSnr(flux, ivar, wavelength, 0.0) == Some(Filtered(flux, ivar, wavelength))
  {
    var m := SnrMask(ivar, 0.0);
    ZeroThresholdKeepsAll(ivar);
    SelectAll(flux, m);
    SelectAll(ivar, m);
    SelectAll(wavelength, m);
  }

  /** With ratio 0 the threshold is 0 when the median is a number, so every
      finite non-negative inverse variance passes. */
  lemma ZeroThresholdKeepsAll(ivar: seq<Val>)
    requires forall i :: 0 <= i < |ivar| ==> ivar[i].Num? && ivar[i].r >= 0.0
    ensures forall i :: 0 <= i < |ivar| ==> SnrMask(ivar, 0.0)[i]
  {
    if |ivar| > 0 {
      var xs := seq(|ivar|, i requires 0 <= i < |ivar| => ivar[i].r);
      assert forall i :: 0 <= i < |ivar| ==> ivar[i].r == xs[i];
      MedianWithin(ivar, 0.0, MaxOf(xs));
      assert SnrThreshold(ivar, 0.0) == Num(0.0);
    }
  }

  /** Selecting with an all-true mask keeps everything. */
  lemma {:induction false} SelectAll<T>(s: seq<T>, m: seq<bool>)
    requires |s| == |m| && forall i :: 0 <= i < |m| ==> m[i]
    ensures Select(s, m) == s
  {
    if |s| > 0 {
      SelectAll(s[1..], m[1..]);
    }
  }

  /** A single NaN inverse variance makes the median, and so the threshold, NaN:
      nothing survives. */
  lemma NaNIvarDropsAll(flux: seq<Val>, ivar: seq<Val>, wavelength: seq<Val>, ratio: real)
    requires |flux| == |ivar| == |wavelength|
    requires exists i :: 0 <= i < |ivar| && ivar[i].NaN?
    ensures FilterLowSnr(flux, ivar, wavelength, ratio) == Some(Filtered([], [], []))
  {
    var m := SnrMask(ivar, ratio);
    assert forall i :: 0 <= i < |m| ==> !m[i];
    SelectNone(flux, m);
    SelectNone(ivar, m);
    SelectNone(wavelength, m);
  }

  /** Selecting with an all-false mask keeps nothing. */
  lemma {:induction false} SelectNone<T>(s: seq<T>, m: seq<bool>)
    requires |s| == |m| && forall i :: 0 <= i < |m| ==> !m[i]
    ensures Select(s, m) == []
  {
    if |s| > 0 {
      SelectNone(s[1..], m[1..]);
    }
  }

  // ---- collecting the records ----

  /** What reading one `.fits.gz` file yields: an exception anywhere in the
      read (logged, file skipped), or the header's observation id and the first
      row of the data table's three arrays. */
  datatype FitsFile = Unreadable | Fits(obsid: int, wavelength: seq<Val>, flux: seq<Val>, ivar: seq<Val>)

  /** One collected spectrum. */
  datatype Record = Record(obsid: int, stype: string, wavelength: seq<Val>, flux: seq<Val>, ivar: seq<Val>)

  /** The type directories in the order they are visited. */
  const StarTypes: seq<string> := ["A", "F", "G"]

  /** The files in the order they are visited, each with its directory's type;
      `dirs[t]` is the listing of directory `type_<StarTypes[t]>`, `None` when it
      does not exist. */
  function Visits(dirs: seq<Option<seq<FitsFile>>>, n: nat): seq<(string, FitsFile)>
    requires n <= |dirs| <= |StarTypes|
  {
    if n == 0 then []
    else
      Visits(dirs, n - 1) +
      match dirs[n - 1]
      case None => []
      case Some(files) => Tag(StarTypes[n - 1], files, |files|)
  }

  /** The first `j` files of a directory, each with the directory's type. */
  function Tag(stype: string, files: seq<FitsFile>, j: nat): (r: seq<(string, FitsFile)>)
    requires j <= |files|
    ensures |r| == j && forall q :: 0 <= q < j ==> r[q] == (stype, files[q])
  {
    seq(j, q requires 0 <= q < j => (stype, files[q]))
  }

  /** The observation ids of some records. */
  function Ids(records: seq<Record>): set<int> {
    set k | 0 <= k < |records| :: records[k].obsid
  }

  /** `all_data` after the given visits: a readable file whose id has not been
      collected yet is appended. */
  function Dedup(vs: seq<(string, FitsFile)>): seq<Record> {
    if |vs| == 0 then []
    else
      var n := |vs| - 1;
      var before := Dedup(vs[..n]);
      var (s, f) := vs[n];
      if f.Fits? && f.obsid !in Ids(before) then before + [Record(f.obsid, s, f.wavelength, f.flux, f.ivar)]
      else before
  }

  /** A record is what the visit read. */
  predicate ReadAs(r: Record, v: (string, FitsFile)) {
    v.1.Fits? && r == Record(v.1.obsid, v.0, v.1.wavelength, v.1.flux, v.1.ivar)
  }

  /** Whether visit `i` is a readable file with id `id`. */
  predicate HasId(vs: seq<(string, FitsFile)>, i: int, id: int)
    requires 0 <= i < |vs|
  {
    vs[i].1.Fits? && vs[i].1.obsid == id
  }

  /** The collected records have pairwise different ids; every readable file's
      id is collected; and each record is the first readable file with its id,
      in visiting order. */
  lemma DedupSpec(vs: seq<(string, FitsFile)>)
    ensures var d := Dedup(vs);
      && (forall k, l :: 0 <= k < l < |d| ==> d[k].obsid != d[l].obsid)
      && (forall i :: 0 <= i < |vs| && vs[i].1.Fits? ==> vs[i].1.obsid in Ids(d))
      && (forall k :: 0 <= k < |d| ==>
            exists i :: 0 <= i < |vs| && ReadAs(d[k], vs[i]) && forall j :: 0 <= j < i ==> !HasId(vs, j, d[k].obsid))
  {
    DedupDistinct(vs);
    DedupComplete(vs);
    DedupFirst(vs);
  }

  lemma {:induction false} DedupDistinct(vs: seq<(string, FitsFile)>)
    ensures var d := Dedup(vs); forall k, l :: 0 <= k < l < |d| ==> d[k].obsid != d[l].obsid
  {
    if |vs| > 0 {
      var n := |vs| - 1;
      var before := Dedup(vs[..n]);
      DedupDistinct(vs[..n]);
      var d := Dedup(vs);
      assert var e := Dedup(vs[..n]); forall k, l :: 0 <= k < l < |e| ==> e[k].obsid != e[l].obsid;
      assert d == before || (vs[n].1.Fits? && vs[n].1.obsid !in Ids(before) && d == before + [Record(vs[n].1.obsid, vs[n].0, vs[n].1.wavelength, vs[n].1.flux, vs[n].1.ivar)]);
      forall k, l | 0 <= k < l < |d| ensures d[k].obsid != d[l].obsid {
        assert d[k] == before[k];
        if l < |before| {
          assert d[l] == before[l];
        } else {
          assert before[k].obsid in Ids(before);
        }
      }
    }
  }

  lemma {:induction false} DedupComplete(vs: seq<(string, FitsFile)>)
    ensures forall i :: 0 <= i < |vs| && vs[i].1.Fits? ==> vs[i].1.obsid in Ids(Dedup(vs))
  {
    if |vs| > 0 {
      var n := |vs| - 1;
      var before := Dedup(vs[..n]);
      DedupComplete(vs[..n]);
      var d := Dedup(vs);
      forall i | 0 <= i < |vs| && vs[i].1.Fits? ensures vs[i].1.obsid in Ids(d) {
        if i < n {
          assert vs[..n][i] == vs[i];
          var k :| 0 <= k < |before| && before[k].obsid == vs[i].1.obsid;
          assert d[k] == before[k];
        } else if vs[n].1.obsid !in Ids(before) {
          assert d[|d| - 1].obsid == vs[n].1.obsid;
        } else {
          var k :| 0 <= k < |before| && before[k].obsid == vs[n].1.obsid;
          assert d[k] == before[k];
        }
      }
    }
  }

  lemma {:induction false} DedupFirst(vs: seq<(string, FitsFile)>)
    ensures var d := Dedup(vs);
      forall k :: 0 <= k < |d| ==>
        exists i :: 0 <= i < |vs| && ReadAs(d[k], vs[i]) && forall j :: 0 <= j < i ==> !HasId(vs, j, d[k].obsid)
  {
    if |vs| > 0 {
      var n := |vs| - 1;
      var before := Dedup(vs[..n]);
      DedupFirst(vs[..n]);
      var d := Dedup(vs);
      assert var e := Dedup(vs[..n]); forall k :: 0 <= k < |e| ==>
        exists i :: 0 <= i < |vs[..n]| && ReadAs(e[k], vs[..n][i]) && forall j :: 0 <= j < i ==> !HasId(vs[..n], j, e[k].obsid);
      forall k | 0 <= k < |d|
        ensures exists i :: 0 <= i < |vs| && ReadAs(d[k], vs[i]) &&
                  forall j :: 0 <= j < i ==> !HasId(vs, j, d[k].obsid)
      {
        if k < |before| {
          assert d[k] == before[k];
          var i :| 0 <= i < |vs[..n]| && ReadAs(before[k], vs[..n][i]) &&
                   forall j :: 0 <= j < i ==> !HasId(vs[..n], j, before[k].obsid);
          assert ReadAs(d[k], vs[i]);
          forall j | 0 <= j < i ensures !HasId(vs, j, d[k].obsid) {
            assert !HasId(vs[..n], j, before[k].obsid);
            assert vs[..n][j] == vs[j];
          }
        } else {
          DedupComplete(vs[..n]);
          forall j | 0 <= j < n ensures !HasId(vs, j, d[k].obsid) {
            assert vs[..n][j] == vs[j];
          }
          assert ReadAs(d[k], vs[n]);
        }
      }
    }
  }

  /** The nested loops over type directories and files, with the
      `processed_obsids` set. */
  method CollectRecords(dirs: seq<Option<seq<FitsFile>>>) returns (all: seq<Record>)
    requires |dirs| == |StarTypes|
    ensures all == Dedup(Visits(dirs, |dirs|))
  {
    all := [];
    var processed: set<int> := {};
    var t := 0;
    while t < |StarTypes|
      invariant 0 <= t <= |StarTypes|
      invariant all == Dedup(Visits(dirs, t))
      invariant processed == Ids(all)
    {
      VisitsStep(dirs, t);
      if dirs[t].Some? {
        all, processed := CollectFiles(Visits(dirs, t), StarTypes[t], dirs[t].value, all, processed);
      }
      t := t + 1;
    }
  }

  /** Visiting directory `t` appends its files, if it exists. */
  lemma VisitsStep(dirs: seq<Option<seq<FitsFile>>>, t: nat)
    requires t < |dirs| <= |StarTypes|
    ensures Visits(dirs, t + 1) ==
      if dirs[t].None? then Visits(dirs, t) else Visits(dirs, t) + Tag(StarTypes[t], dirs[t].value, |dirs[t].value|)
  {
    if dirs[t].None? {
      assert Visits(dirs, t) + [] == Visits(dirs, t);
    }
  }

  /** The inner loop, over the files of one type directory, continuing the
      visits `before`. */
  method CollectFiles(ghost before: seq<(string, FitsFile)>, stype: string, files: seq<FitsFile>,
                      all0: seq<Record>, processed0: set<int>) returns (all: seq<Record>, processed: set<int>)
    requires all0 == Dedup(before) && processed0 == Ids(all0)
    ensures all == Dedup(before + Tag(stype, files, |files|)) && processed == Ids(all)
  {
    all, processed := all0, processed0;
    var j := 0;
    assert before + Tag(stype, files, 0) == before;
    while j < |files|
      invariant 0 <= j <= |files|
      invariant all == Dedup(before + Tag(stype, files, j))
      invariant processed == Ids(all)
    {
      TagStep(before, stype, files, j);
      DedupStep(before + Tag(stype, files, j), (stype, files[j]));
      var f := files[j];
      if f.Fits? && f.obsid !in processed {
        var rec := Record(f.obsid, stype, f.wavelength, f.flux, f.ivar);
        IdsAppend(all, rec);
        all := all + [rec];
        processed := processed + {f.obsid};
      }
      j := j + 1;
    }
  }

  /** Visiting file `j` of a directory extends the visits by that file. */
  lemma TagStep(before: seq<(string, FitsFile)>, stype: string, files: seq<FitsFile>, j: nat)
    requires j < |files|
    ensures before + Tag(stype, files, j + 1) == (before + Tag(stype, files, j)) + [(stype, files[j])]
  {
  }

  /** One more visit: a readable file with an id not collected yet is appended. */
  lemma DedupStep(vs: seq<(string, FitsFile)>, v: (string, FitsFile))
    ensures Dedup(vs + [v]) ==
      if v.1.Fits? && v.1.obsid !in Ids(Dedup(vs)) then Dedup(vs) + [Record(v.1.obsid, v.0, v.1.wavelength, v.1.flux, v.1.ivar)]
      else Dedup(vs)
  {
    assert (vs + [v])[..|vs|] == vs;
  }

  /** Collecting one more record adds its id. */
  lemma IdsAppend(records: seq<Record>, r: Record)
    ensures Ids(records + [r]) == Ids(records) + {r.obsid}
  {
    var rs := records + [r];
    assert forall k :: 0 <= k < |records| ==> rs[k] == records[k];
    assert rs[|records|] == r;
  }

  // ---- flattening ----

  /** The row built for one record: id, type, and `wavelength_<i>`, `flux_<i>`,
      `ivar_<i>` for each `i` below the wavelength length. `None` is the
      IndexError of a flux or ivar array shorter than the wavelengths. */
  function FlatRow(r: Record): Option<Row> {
    var n := |r.wavelength|;
    if |r.flux| < n || |r.ivar| < n then None
    else Some(Row(r.obsid, r.stype, r.wavelength, r.flux[..n], r.ivar[..n]))
  }

  /** The dictionary loop for one record. */
  method FlattenRecord(r: Record) returns (row: Option<Row>)
    ensures row == FlatRow(r)
  {
    var n := |r.wavelength|;
    var wl, fl, iv := [], [], [];
    var i := 0;
    while i < n
      invariant 0 <= i <= n
      invariant wl == r.wavelength[..i]
      invariant i <= |r.flux| && fl == r.flux[..i]
      invariant i <= |r.ivar| && iv == r.ivar[..i]
    {
      if i >= |r.flux| || i >= |r.ivar| {
        return None;
      }
      wl := wl + [r.wavelength[i]];
      fl := fl + [r.flux[i]];
      iv := iv + [r.ivar[i]];
      i := i + 1;
    }
    assert wl == r.wavelength;
    return Some(Row(r.obsid, r.stype, wl, fl, iv));
  }

  /** The longest wavelength array: the number of columns of each family. */
  function Widest(rows: seq<Row>): (w: nat)
    ensures forall k :: 0 <= k < |rows| ==> |rows[k].wavelength| <= w
  {
    if |rows| == 0 then 0
    else
      var rest := Widest(rows[1..]);
      assert forall k :: 1 <= k < |rows| ==> rows[k] == rows[1..][k - 1];
      if |rows[0].wavelength| >= rest then |rows[0].wavelength| else rest
  }

  /** `pd.DataFrame(new_data)`: the union of the columns, with NaN in every cell
      a row's dictionary does not have. */
  function ToFrame(rows: seq<Row>): (t: Table)
    requires forall k :: 0 <= k < |rows| ==> SameWidth(rows[k])
    ensures t.WellFormed() && |t.rows| == |rows|
  {
    var w := Widest(rows);
    Table(true, true, w, w, w,
          seq(|rows|, k requires 0 <= k < |rows| =>
            var r := rows[k];
            assert SameWidth(r);
            Row(r.obsid, r.stype, r.wavelength + NaNs(w - |r.wavelength|),
                r.flux + NaNs(w - |r.flux|), r.ivar + NaNs(w - |r.ivar|))))
  }

  /** How `process_spectra_data` ends. */
  datatype ReadResult =
    | NoSpectra             // nothing collected: a warning, nothing written
    | ShortArray            // a flux or ivar array shorter than its wavelengths: an uncaught IndexError
    | Saved(frame: Table)

  /** Every flattened row, in record order, or `None` at the first record that
      fails. */
  function FlatRows(all: seq<Record>): (r: Option<seq<Row>>)
    ensures r.Some? ==> |r.value| == |all| && forall k :: 0 <= k < |all| ==> Some(r.value[k]) == FlatRow(all[k])
    ensures r.Some? ==> forall k :: 0 <= k < |all| ==> SameWidth(r.value[k])
  {
    if |all| == 0 then Some([])
    else
      var n := |all| - 1;
      match FlatRows(all[..n])
      case None => None
      case Some(rows) =>
        match FlatRow(all[n])
        case None => None
        case Some(row) => Some(rows + [row])
  }

  /** What the stage does with the type directories, start to end. */
  function ReadSpectra(dirs: seq<Option<seq<FitsFile>>>): (r: ReadResult)
    requires |dirs| == |StarTypes|
    ensures r.Saved? ==> r.frame.WellFormed() && |r.frame.rows| == |Dedup(Visits(dirs, |dirs|))|
  {
    var all := Dedup(Visits(dirs, |dirs|));
    if |all| == 0 then NoSpectra
    else
      match FlatRows(all)
      case None => ShortArray
      case Some(rows) => Saved(ToFrame(rows))
  }

  /** The stage: collect, then flatten record by record, then build the frame. */
  method ProcessSpectraData(dirs: seq<Option<seq<FitsFile>>>) returns (r: ReadResult)
    requires |dirs| == |StarTypes|
    ensures r == ReadSpectra(dirs)
  {
    var all := CollectRecords(dirs);
    if |all| == 0 {
      return NoSpectra;
    }
    var rows: seq<Row> := [];
    var k := 0;
    while k < |all|
      invariant 0 <= k <= |all|
      invariant FlatRows(all[..k]) == Some(rows)
    {
      var row := FlattenRecord(all[k]);
      FlatRowsStep(all, k);
      if row.None? {
        FlatRowsFail(all, k);
        return ShortArray;
      }
      rows := rows + [row.value];
      k := k + 1;
    }
    assert all[..k] == all;
    r := Saved(ToFrame(rows));
  }

  /** Flattening one more record. */
  lemma FlatRowsStep(all: seq<Record>, k: nat)
    requires k < |all|
    ensures FlatRows(all[..k + 1]) ==
      if FlatRows(all[..k]).None? || FlatRow(all[k]).None? then None
      else Some(FlatRows(all[..k]).value + [FlatRow(all[k]).value])
  {
    assert all[..k + 1][..k] == all[..k];
  }

  /** One failing record makes the whole flattening fail. */
  lemma {:induction false} FlatRowsFail(all: seq<Record>, k: nat)
    requires k < |all| && FlatRow(all[k]).None?
    ensures FlatRows(all).None?
  {
    var n := |all| - 1;
    if k < n {
      assert all[..n][k] == all[k];
      FlatRowsFail(all[..n], k);
    }
  }

  /** Row `k` of the frame built from rows of equal family widths: its id, type
      and cells, then NaN up to the widest row. */
  lemma ToFrameRow(rows: seq<Row>, k: nat)
    requires (forall q :: 0 <= q < |rows| ==> SameWidth(rows[q])) && k < |rows|
    ensures var t, r := ToFrame(rows), rows[k]; var row := t.rows[k];
      && t.hasObsid && t.hasType
      && row.obsid == r.obsid && row.stype == r.stype && |r.wavelength| <= t.nWave
      && (forall i :: 0 <= i < |r.wavelength| ==>
            row.wavelength[i] == r.wavelength[i] && row.flux[i] == r.flux[i] && row.ivar[i] == r.ivar[i])
      && (forall i :: |r.wavelength| <= i < t.nWave ==>
            row.wavelength[i] == NaN && row.flux[i] == NaN && row.ivar[i] == NaN)
  {
  }

  /** Row `k` of the frame built from flattened records: record `k`'s id and
      type, its cells below its wavelength length, NaN after. */
  lemma FrameRow(all: seq<Record>, k: nat)
    requires FlatRows(all).Some? && k < |all|
    ensures var t, r := ToFrame(FlatRows(all).value), all[k]; var row := t.rows[k];
      && row.obsid == r.obsid && row.stype == r.stype && |r.wavelength| <= t.nWave
      && (forall i :: 0 <= i < |r.wavelength| ==>
            row.wavelength[i] == r.wavelength[i] && row.flux[i] == r.flux[i] && row.ivar[i] == r.ivar[i])
      && (forall i :: |r.wavelength| <= i < t.nWave ==>
            row.wavelength[i] == NaN && row.flux[i] == NaN && row.ivar[i] == NaN)
  {
    var rows := FlatRows(all).value;
    assert Some(rows[k]) == FlatRow(all[k]);
    ToFrameRow(rows, k);
  }

  /** The stage saves a frame exactly when some record was collected and no
      record's flux or ivar is shorter than its wavelengths. */
  lemma SavedWhen(dirs: seq<Option<seq<FitsFile>>>)
    requires |dirs| == |StarTypes|
    ensures var all := Dedup(Visits(dirs, |dirs|));
      ReadSpectra(dirs).Saved? <==>
        |all| > 0 && forall k :: 0 <= k < |all| ==> |all[k].wavelength| <= |all[k].flux| && |all[k].wavelength| <= |all[k].ivar|
  {
    var all := Dedup(Visits(dirs, |dirs|));
    if |all| > 0 {
      if FlatRows(all).None? {
        FlatRowsFailWitness(all);
      } else {
        forall k | 0 <= k < |all| ensures |all[k].wavelength| <= |all[k].flux| && |all[k].wavelength| <= |all[k].ivar| {
          assert FlatRow(all[k]).Some?;
        }
      }
    }
  }

  /** The saved frame has one row per collected record, in order, with pairwise
      different ids. */
  lemma SavedFrame(dirs: seq<Option<seq<FitsFile>>>)
    requires |dirs| == |StarTypes| && ReadSpectra(dirs).Saved?
    ensures var all, t := Dedup(Visits(dirs, |dirs|)), ReadSpectra(dirs).frame;
      && t.WellFormed() && t.hasObsid && t.hasType && |t.rows| == |all| > 0
      && forall k, l :: 0 <= k < l < |t.rows| ==> t.rows[k].obsid != t.rows[l].obsid
  {
    var all := Dedup(Visits(dirs, |dirs|));
    var t := ReadSpectra(dirs).frame;
    assert t == ToFrame(FlatRows(all).value);
    forall k | 0 <= k < |all| ensures t.rows[k].obsid == all[k].obsid {
      FrameRow(all, k);
    }
    DedupSpec(Visits(dirs, |dirs|));
  }

  /** Row `k` of the saved frame holds record `k`'s id and type, and, at every
      position below the record's wavelength length, its wavelength, flux and
      ivar; every further cell is NaN. */
  lemma SavedRows(dirs: seq<Option<seq<FitsFile>>>, k: nat)
    requires |dirs| == |StarTypes| && ReadSpectra(dirs).Saved?
    requires k < |Dedup(Visits(dirs, |dirs|))|
    ensures var r, t := Dedup(Visits(dirs, |dirs|))[k], ReadSpectra(dirs).frame;
      && k < |t.rows| && |r.wavelength| <= t.nWave
      && t.rows[k].obsid == r.obsid && t.rows[k].stype == r.stype
      && (forall i :: 0 <= i < |r.wavelength| ==>
            t.rows[k].wavelength[i] == r.wavelength[i] && t.rows[k].flux[i] == r.flux[i] && t.rows[k].ivar[i] == r.ivar[i])
      && (forall i :: |r.wavelength| <= i < t.nWave ==>
            t.rows[k].wavelength[i] == NaN && t.rows[k].flux[i] == NaN && t.rows[k].ivar[i] == NaN)
  {
    var all := Dedup(Visits(dirs, |dirs|));
    assert ReadSpectra(dirs).frame == ToFrame(FlatRows(all).value);
    FrameRow(all, k);
  }

  /** When the flattening fails, some record is short. */
  lemma {:induction false} FlatRowsFailWitness(all: seq<Record>)
    requires FlatRows(all).None?
    ensures exists k :: 0 <= k < |all| && FlatRow(all[k]).None?
  {
    var n := |all| - 1;
    if FlatRows(all[..n]).None? {
      FlatRowsFailWitness(all[..n]);
      var k :| 0 <= k < n && FlatRow(all[..n][k]).None?;
      assert all[..n][k] == all[k];
    }
  }
}
