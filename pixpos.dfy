/** The pixel-position resolver of one focal-plane module (`get_caldb_pixpos`).

    For every raw pixel (ix, iy) of every detector table, the weighted 7 x 7
    probability patches of that raw pixel are summed into a scratch grid; the
    scratch grid is merged into a running maximum over the 360 x 360
    focal-plane grid, and each cell where the scratch mass is strictly larger
    records that raw pixel and detector.

    The arrays are specified cell by cell: `Candidates` lists, in processing
    order, the mass each raw pixel offers one cell, and `Run` is the
    running-maximum merge over such a list. */
module PixPos {
  import opened Fits
  import opened Tables
  import Alignment

  /** One row of a PIXPOS calibration table. `valid` is false when the PDF
      holds an undefined (NaN) value. */
  datatype Patch = Patch(rawx: int, rawy: int, grade: int, refx: int, refy: int,
                         valid: bool, pdf: seq<seq<real>>)

  /** The PDF column is always a 7 x 7 block. */
  predicate Shaped(p: Patch)
  {
    |p.pdf| == 7 && forall k :: 0 <= k < 7 ==> |p.pdf[k]| == 7
  }

  /** The row filter for raw pixel (ix, iy): anchor not -1, matching raw
      coordinates, grade at most 26 and a PDF free of NaN. */
  predicate Contributes(p: Patch, ix: int, iy: int)
  {
    p.refx != -1 && p.rawx == ix && p.rawy == iy && p.grade <= 26 && p.valid
  }

  /** What a contributing row needs for the patch addition not to raise: a
      grade the weight table can index and a 7 x 7 block inside the grid. */
  predicate Anchored(p: Patch)
  {
    -|GRADE_WT| <= p.grade <= 26 && 0 <= p.refx <= 353 && 0 <= p.refy <= 353
  }

  predicate RowOk(p: Patch)
  {
    Shaped(p) && (0 <= p.rawx < 32 && 0 <= p.rawy < 32 && Contributes(p, p.rawx, p.rawy) ==> Anchored(p))
  }

  predicate RowsOk(rows: seq<Patch>)
  {
    forall k :: 0 <= k < |rows| ==> RowOk(rows[k])
  }

  /** Cell (r, c) lies in the 7 x 7 block anchored at (refy, refx). */
  predicate InBlock(p: Patch, r: int, c: int)
  {
    p.refy <= r < p.refy + 7 && p.refx <= c < p.refx + 7
  }

  /** What one row adds to cell (r, c) of the scratch grid. */
  function Contribution(p: Patch, r: int, c: int): real
    requires Shaped(p) && Anchored(p)
  {
    if InBlock(p, r, c) then p.pdf[r - p.refy][c - p.refx] * GradeWeight(p.grade) else 0.0
  }

  /** The scratch-grid value at (r, c) for raw pixel (ix, iy): the sum of the
      contributions of the rows that pass the filter, in table order. */
  function Mass(rows: seq<Patch>, ix: int, iy: int, r: int, c: int): real
    requires RowsOk(rows) && 0 <= ix < 32 && 0 <= iy < 32
  {
    if rows == [] then 0.0
    else
      var p := rows[|rows| - 1];
      Mass(rows[..|rows| - 1], ix, iy, r, c) + (if Contributes(p, ix, iy) then Contribution(p, r, c) else 0.0)
  }

  /** The mass a raw pixel offers one cell, with the raw-pixel id and the
      detector index that the cell records if the offer wins. */
  datatype Candidate = Candidate(mass: real, id: int, det: int)

  /** One cell of the three grids: running maximum, raw-pixel id, detector. */
  datatype Cell = Cell(best: real, pix: int, det: int)

  /** Every cell starts with mass 0 and the unresolved marker -1. */
  const Init: Cell := Cell(0.0, -1, -1)

  /** The merge of one raw pixel: a strictly larger mass takes the cell. */
  function Step(s: Cell, x: Candidate): Cell
  {
    if x.mass > s.best then Cell(x.mass, x.id, x.det) else s
  }

  /** The merges of a list of candidates, in order. */
  function Run(s: Cell, cs: seq<Candidate>): Cell
  {
    if cs == [] then s else Step(Run(s, cs[..|cs| - 1]), cs[|cs| - 1])
  }

  function RawCandidate(rows: seq<Patch>, idet: int, ix: int, iy: int, r: int, c: int): Candidate
    requires RowsOk(rows) && 0 <= ix < 32 && 0 <= iy < 32
  {
    Candidate(Mass(rows, ix, iy, r, c), RawId(ix, iy), idet)
  }

  /** The candidates of raw pixels (ix, 0), ..., (ix, n - 1) for cell (r, c). */
  function ColumnCandidates(rows: seq<Patch>, idet: int, ix: int, n: int, r: int, c: int): (cs: seq<Candidate>)
    requires RowsOk(rows) && 0 <= ix < 32 && 0 <= n <= 32
    ensures |cs| == n
    ensures forall k :: 0 <= k < n ==> cs[k].id == RawId(ix, k) && cs[k].det == idet
  {
    if n == 0 then []
    else ColumnCandidates(rows, idet, ix, n - 1, r, c) + [RawCandidate(rows, idet, ix, n - 1, r, c)]
  }

  /** The candidates of raw pixels with ix < m, in the order of the nested
      loops: ix outer, iy inner. */
  function ExtCandidates(rows: seq<Patch>, idet: int, m: int, r: int, c: int): (cs: seq<Candidate>)
    requires RowsOk(rows) && 0 <= m <= 32
    ensures |cs| == 32 * m
    ensures forall k :: 0 <= k < |cs| ==> 0 <= cs[k].id < 1024 && cs[k].det == idet
  {
    if m == 0 then []
    else
      var col := ColumnCandidates(rows, idet, m - 1, 32, r, c);
      assert forall k :: 0 <= k < 32 ==> 0 <= col[k].id < 1024 by {
        forall k | 0 <= k < 32 ensures 0 <= col[k].id < 1024 { RawIdDecodes(m - 1, k); }
      }
      ExtCandidates(rows, idet, m - 1, r, c) + col
  }

  /** The extension filter: EXTNAME present and containing 'PIXPOS', and
      DETNAM present. */
  predicate PixposSelected(h: Header)
  {
    "EXTNAME" in h && h["EXTNAME"].Text? && Contains(h["EXTNAME"].text, "PIXPOS") && "DETNAM" in h
  }

  /** What a unit needs for the resolver not to raise: a textual EXTNAME and,
      when selected, a DETNAM of the form 'DET<digits>' and well-formed rows. */
  predicate PixposHduOk(e: Hdu<Patch>)
  {
    && ("EXTNAME" in e.header ==> e.header["EXTNAME"].Text?)
    && (PixposSelected(e.header) ==>
          && e.header["DETNAM"].Text?
          && ParseDigits(RemoveAll(e.header["DETNAM"].text, "DET")).Some?
          && RowsOk(e.rows))
  }

  predicate PixposHdusOk(exts: seq<Hdu<Patch>>)
  {
    forall k :: 0 <= k < |exts| ==> PixposHduOk(exts[k])
  }

  /** `int(DETNAM.replace('DET', ''))`. */
  function DetIndex(h: Header): nat
    requires PixposSelected(h) && h["DETNAM"].Text?
    requires ParseDigits(RemoveAll(h["DETNAM"].text, "DET")).Some?
  {
    ParseDigits(RemoveAll(h["DETNAM"].text, "DET")).value
  }

  /** The resolver's parse of a detector name agrees with the `DETNAM` table
      that `apply_badpix` uses: DET0..DET3 give 0..3. */
  lemma {:induction false} DetIndexMatchesTable()
    ensures forall n :: n in DETNAM ==> ParseDigits(RemoveAll(n, "DET")) == Some(DETNAM[n])
  {
    forall n | n in DETNAM
      ensures ParseDigits(RemoveAll(n, "DET")) == Some(DETNAM[n])
    {
      var d := n[3..];
      assert n == "DET" + d && |d| == 1 && n[..3] == "DET";
      assert RemoveAll(n, "DET") == RemoveAll(d, "DET") == d;
      assert DigitsValue(d) == d[0] as int - '0' as int by {
        assert d[..0] == [];
      }
    }
  }

  /** A selected PIXPOS table named after a detector of the table resolves
      to that detector's index. */
  lemma DetIndexOfKnownName(h: Header)
    requires PixposSelected(h) && h["DETNAM"].Text? && h["DETNAM"].text in DETNAM
    ensures ParseDigits(RemoveAll(h["DETNAM"].text, "DET")).Some?
    ensures DetIndex(h) == DETNAM[h["DETNAM"].text]
  {
    DetIndexMatchesTable();
  }

  /** Some selected unit of `exts` has detector index `det`. */
  predicate IsSelectedDetector(exts: seq<Hdu<Patch>>, det: int)
    requires PixposHdusOk(exts)
  {
    exists j :: 0 <= j < |exts| && PixposSelected(exts[j].header) && DetIndex(exts[j].header) == det
  }

  /** All candidates for cell (r, c), over the selected units in order. Each
      names a raw pixel in [0, 1023] and the detector of a selected unit. */
  function Candidates(exts: seq<Hdu<Patch>>, r: int, c: int): (cs: seq<Candidate>)
    requires PixposHdusOk(exts)
    ensures forall k :: 0 <= k < |cs| ==> 0 <= cs[k].id < 1024 && IsSelectedDetector(exts, cs[k].det)
  {
    if exts == [] then []
    else
      var front := exts[..|exts| - 1];
      var e := exts[|exts| - 1];
      assert forall j :: 0 <= j < |front| ==> front[j] == exts[j];
      var prev := Candidates(front, r, c);
      assert forall d :: IsSelectedDetector(front, d) ==> IsSelectedDetector(exts, d) by {
        forall d | IsSelectedDetector(front, d) ensures IsSelectedDetector(exts, d) {
          var j :| 0 <= j < |front| && PixposSelected(front[j].header) && DetIndex(front[j].header) == d;
          assert exts[j] == front[j];
        }
      }
      if PixposSelected(e.header) then
        var more := ExtCandidates(e.rows, DetIndex(e.header), 32, r, c);
        assert IsSelectedDetector(exts, DetIndex(e.header)) by {
          assert exts[|exts| - 1] == e;
        }
        prev + more
      else prev
  }

  /** The final state of cell (r, c) after every unit has been merged. */
  function Resolved(exts: seq<Hdu<Patch>>, r: int, c: int): Cell
    requires PixposHdusOk(exts)
  {
    Run(Init, Candidates(exts, r, c))
  }

  // ---------------------------------------------------------------------
  // Properties of the scratch grid

  /** Scratch masses add up over a split of the table. */
  lemma {:induction false} MassAppend(xs: seq<Patch>, ys: seq<Patch>, ix: int, iy: int, r: int, c: int)
    requires RowsOk(xs) && RowsOk(ys) && 0 <= ix < 32 && 0 <= iy < 32
    ensures RowsOk(xs + ys)
    ensures Mass(xs + ys, ix, iy, r, c) == Mass(xs, ix, iy, r, c) + Mass(ys, ix, iy, r, c)
  {
    assert RowsOk(xs + ys) by {
      forall k | 0 <= k < |xs + ys| ensures RowOk((xs + ys)[k]) {
        if k < |xs| { assert (xs + ys)[k] == xs[k]; } else { assert (xs + ys)[k] == ys[k - |xs|]; }
      }
    }
    if ys != [] {
      var ys' := ys[..|ys| - 1];
      assert (xs + ys)[..|xs + ys| - 1] == xs + ys';
      assert RowsOk(ys');
      MassAppend(xs, ys', ix, iy, r, c);
    } else {
      assert xs + ys == xs;
    }
  }

  /** A row that fails the filter for (ix, iy) leaves the scratch grid as it
      is, wherever it stands in the table. */
  lemma MassIgnoresRow(xs: seq<Patch>, p: Patch, ys: seq<Patch>, ix: int, iy: int, r: int, c: int)
    requires RowsOk(xs) && RowOk(p) && RowsOk(ys) && 0 <= ix < 32 && 0 <= iy < 32
    requires !Contributes(p, ix, iy)
    ensures RowsOk(xs + [p] + ys) && RowsOk(xs + ys)
    ensures Mass(xs + [p] + ys, ix, iy, r, c) == Mass(xs + ys, ix, iy, r, c)
  {
    MassAppend(xs, [p], ix, iy, r, c);
    MassAppend(xs + [p], ys, ix, iy, r, c);
    MassAppend(xs, ys, ix, iy, r, c);
    assert [p][..0] == [];
  }

  /** A cell outside the 7 x 7 block of every contributing row stays 0. */
  lemma {:induction false} MassOutsideBlocks(rows: seq<Patch>, ix: int, iy: int, r: int, c: int)
    requires RowsOk(rows) && 0 <= ix < 32 && 0 <= iy < 32
    requires forall k :: 0 <= k < |rows| && Contributes(rows[k], ix, iy) ==> !InBlock(rows[k], r, c)
    ensures Mass(rows, ix, iy, r, c) == 0.0
  {
    if rows != [] {
      var front := rows[..|rows| - 1];
      assert forall k :: 0 <= k < |front| ==> front[k] == rows[k];
      MassOutsideBlocks(front, ix, iy, r, c);
    }
  }

  // ---------------------------------------------------------------------
  // Properties of the running-maximum merge

  lemma RunSnoc(s: Cell, cs: seq<Candidate>, x: Candidate)
    ensures Run(s, cs + [x]) == Step(Run(s, cs), x)
  {
    assert (cs + [x])[..|cs|] == cs;
  }

  /** Merging two lists in turn is merging their concatenation. */
  lemma {:induction false} RunAppend(s: Cell, xs: seq<Candidate>, ys: seq<Candidate>)
    ensures Run(s, xs + ys) == Run(Run(s, xs), ys)
  {
    if ys == [] {
      assert xs + ys == xs;
    } else {
      var ys' := ys[..|ys| - 1];
      assert xs + ys == (xs + ys') + [ys[|ys| - 1]];
      RunSnoc(s, xs + ys', ys[|ys| - 1]);
      RunAppend(s, xs, ys');
    }
  }

  /** The merged mass is the maximum of the starting mass and every offered
      mass: it is at least each of them and equal to one of them. */
  lemma {:induction false} RunMaximum(s: Cell, cs: seq<Candidate>)
    ensures s.best <= Run(s, cs).best
    ensures forall k :: 0 <= k < |cs| ==> cs[k].mass <= Run(s, cs).best
    ensures Run(s, cs).best == s.best || exists k :: 0 <= k < |cs| && cs[k].mass == Run(s, cs).best
  {
    if cs != [] {
      var front := cs[..|cs| - 1];
      RunMaximum(s, front);
      assert forall k :: 0 <= k < |front| ==> front[k] == cs[k];
    }
  }

  /** A cell keeps its state exactly when no offer is strictly larger than
      its starting mass; in particular an equal offer never takes it. */
  lemma {:induction false} RunUnchanged(s: Cell, cs: seq<Candidate>)
    ensures Run(s, cs) == s <==> forall k :: 0 <= k < |cs| ==> cs[k].mass <= s.best
  {
    RunMaximum(s, cs);
    if forall k :: 0 <= k < |cs| ==> cs[k].mass <= s.best {
      if cs != [] {
        var front := cs[..|cs| - 1];
        assert forall k :: 0 <= k < |front| ==> front[k] == cs[k];
        RunUnchanged(s, front);
      }
    } else {
      var k :| 0 <= k < |cs| && cs[k].mass > s.best;
      assert Run(s, cs).best > s.best;
    }
  }

  /** Ties keep the earlier raw pixel: a changed cell holds the id and
      detector of the FIRST candidate offering its final mass, every earlier
      offer being strictly smaller. */
  lemma {:induction false} RunFirstReach(s: Cell, cs: seq<Candidate>)
    requires Run(s, cs) != s
    ensures exists k :: (0 <= k < |cs| && cs[k].mass == Run(s, cs).best && s.best < cs[k].mass
      && Run(s, cs).pix == cs[k].id && Run(s, cs).det == cs[k].det
      && forall j :: 0 <= j < k ==> cs[j].mass < cs[k].mass)
  {
    var front := cs[..|cs| - 1];
    var x := cs[|cs| - 1];
    assert forall k :: 0 <= k < |front| ==> front[k] == cs[k];
    var t := Run(s, front);
    if x.mass > t.best {
      RunMaximum(s, front);
      var k := |cs| - 1;
      assert forall j :: 0 <= j < k ==> cs[j].mass <= t.best;
      assert cs[k].mass == Run(s, cs).best;
    } else {
      RunFirstReach(s, front);
      var k :| 0 <= k < |front| && front[k].mass == t.best && s.best < front[k].mass
        && t.pix == front[k].id && t.det == front[k].det
        && forall j :: 0 <= j < k ==> front[j].mass < front[k].mass;
      assert cs[k].mass == Run(s, cs).best;
    }
  }

  /** A focal-plane cell stays unresolved (-1 in both grids) exactly when no
      raw pixel offers it a positive mass; otherwise it holds a raw-pixel id
      in [0, 1023] and the detector index of a selected table. */
  lemma ResolvedSentinel(exts: seq<Hdu<Patch>>, r: int, c: int)
    requires PixposHdusOk(exts)
    ensures var cell := Resolved(exts, r, c);
      && (cell.pix == -1 <==> cell.det == -1)
      && (cell.pix == -1 <==> forall k :: 0 <= k < |Candidates(exts, r, c)| ==> Candidates(exts, r, c)[k].mass <= 0.0)
      && (cell.pix != -1 ==> 0 <= cell.pix < 1024 && IsSelectedDetector(exts, cell.det))
  {
    var cs := Candidates(exts, r, c);
    var cell := Run(Init, cs);
    assert cell == Resolved(exts, r, c);
    RunUnchanged(Init, cs);
    assert Init.best == 0.0 && Init.pix == -1 && Init.det == -1;
    if cell == Init {
      assert forall k :: 0 <= k < |cs| ==> cs[k].mass <= 0.0;
    } else {
      RunFirstReach(Init, cs);
      var k :| 0 <= k < |cs| && cs[k].mass == cell.best && Init.best < cs[k].mass
        && cell.pix == cs[k].id && cell.det == cs[k].det
        && forall j :: 0 <= j < k ==> cs[j].mass < cs[k].mass;
      assert cs[k].mass > 0.0;
      assert 0 <= cs[k].id < 1024 && IsSelectedDetector(exts, cs[k].det);
      var j :| 0 <= j < |exts| && PixposSelected(exts[j].header) && DetIndex(exts[j].header) == cs[k].det;
      assert cell.pix >= 0 && cell.det >= 0;
      assert cs == Candidates(exts, r, c);
      assert !(forall i :: 0 <= i < |Candidates(exts, r, c)| ==> Candidates(exts, r, c)[i].mass <= 0.0);
    }
  }

  // ---------------------------------------------------------------------
  // The algorithm on arrays

  predicate IsGrid<T>(a: array2<T>)
  {
    a.Length0 == 360 && a.Length1 == 360
  }

  /** The state of cell (r, c) of the three grids. */
  function CellAt(allpdf: array2<real>, pixmap: array2<int>, detnum: array2<int>, r: int, c: int): Cell
    reads allpdf, pixmap, detnum
    requires IsGrid(allpdf) && IsGrid(pixmap) && IsGrid(detnum)
    requires 0 <= r < 360 && 0 <= c < 360
  {
    Cell(allpdf[r, c], pixmap[r, c], detnum[r, c])
  }

  /** `thispdf[ref_y:ref_y + 7, ref_x:ref_x + 7] += PDF * GRADE_WT[GRADE]`. */
  method AddPatch(thispdf: array2<real>, p: Patch)
    requires IsGrid(thispdf) && Shaped(p) && Anchored(p)
    modifies thispdf
    ensures forall r, c :: 0 <= r < 360 && 0 <= c < 360 ==>
      thispdf[r, c] == old(thispdf[r, c]) + Contribution(p, r, c)
  {
    var w := GradeWeight(p.grade);
    forall r, c | p.refy <= r < p.refy + 7 && p.refx <= c < p.refx + 7 {
      thispdf[r, c] := thispdf[r, c] + p.pdf[r - p.refy][c - p.refx] * w;
    }
  }

  /** The scratch grid of raw pixel (ix, iy): zeros, then every row that
      passes the filter added in table order. */
  method ScratchGrid(rows: seq<Patch>, ix: int, iy: int) returns (thispdf: array2<real>)
    requires RowsOk(rows) && 0 <= ix < 32 && 0 <= iy < 32
    ensures fresh(thispdf) && IsGrid(thispdf)
    ensures forall r, c :: 0 <= r < 360 && 0 <= c < 360 ==> thispdf[r, c] == Mass(rows, ix, iy, r, c)
  {
    thispdf := new real[360, 360]((r, c) => 0.0);
    var i := 0;
    while i < |rows|
      invariant 0 <= i <= |rows|
      invariant RowsOk(rows[..i])
      invariant forall r, c :: 0 <= r < 360 && 0 <= c < 360 ==> thispdf[r, c] == Mass(rows[..i], ix, iy, r, c)
    {
      var p := rows[i];
      if Contributes(p, ix, iy) {
        AddPatch(thispdf, p);
      }
      assert rows[..i + 1][..i] == rows[..i];
      assert rows[..i + 1][i] == p;
      i := i + 1;
    }
    assert rows[..|rows|] == rows;
  }

  /** Lines 93-97: where the scratch grid exceeds the running maximum, take
      its value, the raw-pixel id and the detector index. */
  method Merge(allpdf: array2<real>, pixmap: array2<int>, detnum: array2<int>,
               thispdf: array2<real>, id: int, idet: int)
    requires IsGrid(allpdf) && IsGrid(pixmap) && IsGrid(detnum) && IsGrid(thispdf)
    requires pixmap != detnum && thispdf != allpdf
    modifies allpdf, pixmap, detnum
    ensures forall r, c :: 0 <= r < 360 && 0 <= c < 360 ==>
      CellAt(allpdf, pixmap, detnum, r, c)
        == Step(old(CellAt(allpdf, pixmap, detnum, r, c)), Candidate(thispdf[r, c], id, idet))
  {
    var ii := new bool[360, 360];
    forall r, c | 0 <= r < 360 && 0 <= c < 360 {
      ii[r, c] := thispdf[r, c] > allpdf[r, c];
    }
    forall r, c | 0 <= r < 360 && 0 <= c < 360 && ii[r, c] {
      allpdf[r, c] := thispdf[r, c];
    }
    forall r, c | 0 <= r < 360 && 0 <= c < 360 && ii[r, c] {
      pixmap[r, c] := id;
    }
    forall r, c | 0 <= r < 360 && 0 <= c < 360 && ii[r, c] {
      detnum[r, c] := idet;
    }
  }

  /** Lines 74-97 for one detector table: the nested loops over the 32 x 32
      raw pixels, each building its scratch grid and merging it. */
  method ResolveExtension(allpdf: array2<real>, pixmap: array2<int>, detnum: array2<int>,
                          rows: seq<Patch>, idet: int)
    requires IsGrid(allpdf) && IsGrid(pixmap) && IsGrid(detnum) && pixmap != detnum
    requires RowsOk(rows)
    modifies allpdf, pixmap, detnum
    ensures forall r, c :: 0 <= r < 360 && 0 <= c < 360 ==>
      CellAt(allpdf, pixmap, detnum, r, c)
        == Run(old(CellAt(allpdf, pixmap, detnum, r, c)), ExtCandidates(rows, idet, 32, r, c))
  {
    var ix := 0;
    while ix < 32
      invariant 0 <= ix <= 32
      invariant forall r, c :: 0 <= r < 360 && 0 <= c < 360 ==>
        CellAt(allpdf, pixmap, detnum, r, c)
          == Run(old(CellAt(allpdf, pixmap, detnum, r, c)), ExtCandidates(rows, idet, ix, r, c))
    {
      var iy := 0;
      forall r, c | 0 <= r < 360 && 0 <= c < 360
        ensures ExtCandidates(rows, idet, ix, r, c) + ColumnCandidates(rows, idet, ix, 0, r, c)
          == ExtCandidates(rows, idet, ix, r, c)
      {
        assert ColumnCandidates(rows, idet, ix, 0, r, c) == [];
      }
      while iy < 32
        invariant 0 <= iy <= 32
        invariant forall r, c :: 0 <= r < 360 && 0 <= c < 360 ==>
          CellAt(allpdf, pixmap, detnum, r, c)
            == Run(old(CellAt(allpdf, pixmap, detnum, r, c)),
                   ExtCandidates(rows, idet, ix, r, c) + ColumnCandidates(rows, idet, ix, iy, r, c))
      {
        var thispdf := ScratchGrid(rows, ix, iy);
        label before:
        Merge(allpdf, pixmap, detnum, thispdf, RawId(ix, iy), idet);
        forall r, c | 0 <= r < 360 && 0 <= c < 360
          ensures CellAt(allpdf, pixmap, detnum, r, c)
            == Run(old(CellAt(allpdf, pixmap, detnum, r, c)),
                   ExtCandidates(rows, idet, ix, r, c) + ColumnCandidates(rows, idet, ix, iy + 1, r, c))
        {
          var xs := ExtCandidates(rows, idet, ix, r, c) + ColumnCandidates(rows, idet, ix, iy, r, c);
          var x := RawCandidate(rows, idet, ix, iy, r, c);
          assert ExtCandidates(rows, idet, ix, r, c) + ColumnCandidates(rows, idet, ix, iy + 1, r, c) == xs + [x];
          RunSnoc(old(CellAt(allpdf, pixmap, detnum, r, c)), xs, x);
          assert old@before(CellAt(allpdf, pixmap, detnum, r, c)) == Run(old(CellAt(allpdf, pixmap, detnum, r, c)), xs);
        }
        iy := iy + 1;
      }
      ix := ix + 1;
    }
  }

  /** Lines 74-97 of `get_caldb_pixpos`: the grids start at -1, -1 and 0,
      and every selected detector table is resolved in turn into the same
      grids. The grids hold, cell by cell, the resolved raw-pixel id and
      detector index. */
  method ResolveAll(exts: seq<Hdu<Patch>>) returns (pixmap: array2<int>, detnum: array2<int>)
    requires PixposHdusOk(exts)
    ensures fresh(pixmap) && fresh(detnum) && IsGrid(pixmap) && IsGrid(detnum)
    ensures forall r, c :: 0 <= r < 360 && 0 <= c < 360 ==>
      pixmap[r, c] == Resolved(exts, r, c).pix && detnum[r, c] == Resolved(exts, r, c).det
  {
    pixmap := new int[360, 360]((r, c) => -1);
    detnum := new int[360, 360]((r, c) => -1);
    var allpdf := new real[360, 360]((r, c) => 0.0);
    var e := 0;
    while e < |exts|
      invariant 0 <= e <= |exts|
      invariant PixposHdusOk(exts[..e])
      invariant forall r, c :: 0 <= r < 360 && 0 <= c < 360 ==>
        CellAt(allpdf, pixmap, detnum, r, c) == Resolved(exts[..e], r, c)
    {
      var ext := exts[e];
      ResolvedSnoc(exts, e);
      if PixposSelected(ext.header) {
        ResolveExtension(allpdf, pixmap, detnum, ext.rows, DetIndex(ext.header));
      }
      e := e + 1;
    }
    assert exts[..|exts|] == exts;
  }

  /** One more unit: a selected table merges its offers into every cell, and
      any other unit leaves the cells as they were. */
  lemma ResolvedSnoc(exts: seq<Hdu<Patch>>, e: int)
    requires PixposHdusOk(exts) && 0 <= e < |exts|
    ensures PixposHdusOk(exts[..e]) && PixposHdusOk(exts[..e + 1])
    ensures forall r, c :: (Resolved(exts[..e + 1], r, c)
      == if PixposSelected(exts[e].header)
         then Run(Resolved(exts[..e], r, c), ExtCandidates(exts[e].rows, DetIndex(exts[e].header), 32, r, c))
         else Resolved(exts[..e], r, c))
  {
    assert exts[..e + 1][..e] == exts[..e];
    assert exts[..e + 1][e] == exts[e];
    forall r, c
      ensures Resolved(exts[..e + 1], r, c)
        == if PixposSelected(exts[e].header)
           then Run(Resolved(exts[..e], r, c), ExtCandidates(exts[e].rows, DetIndex(exts[e].header), 32, r, c))
           else Resolved(exts[..e], r, c)
    {
      if PixposSelected(exts[e].header) {
        RunAppend(Init, Candidates(exts[..e], r, c), ExtCandidates(exts[e].rows, DetIndex(exts[e].header), 32, r, c));
      }
    }
  }

  /** `get_caldb_pixpos`: the resolved grids, both aligned by (-1, -1). Cell
      (r, c) of the returned grids holds the raw-pixel id and detector index
      resolved for cell (r + 1, c + 1), wrapping at the last row and
      column. */
  method GetPixelPositions(exts: seq<Hdu<Patch>>) returns (pixmap: array2<int>, detnum: array2<int>)
    requires PixposHdusOk(exts)
    ensures fresh(pixmap) && fresh(detnum) && IsGrid(pixmap) && IsGrid(detnum)
    ensures forall r, c :: 0 <= r < 360 && 0 <= c < 360 ==>
      pixmap[r, c] == Resolved(exts, (r + 1) % 360, (c + 1) % 360).pix
      && detnum[r, c] == Resolved(exts, (r + 1) % 360, (c + 1) % 360).det
  {
    var pix, det := ResolveAll(exts);
    pixmap := Alignment.ShiftImage(pix, -1, -1);
    detnum := Alignment.ShiftImage(det, -1, -1);
    forall r, c | 0 <= r < 360 && 0 <= c < 360
      ensures pixmap[r, c] == pix[(r + 1) % 360, (c + 1) % 360]
      ensures detnum[r, c] == det[(r + 1) % 360, (c + 1) % 360]
    {
      Alignment.AlignedCell(Alignment.Grid(pix), r, c);
      Alignment.AlignedCell(Alignment.Grid(det), r, c);
      assert pixmap[r, c] == Alignment.Grid(pixmap)[r][c];
      assert detnum[r, c] == Alignment.Grid(detnum)[r][c];
    }
  }
}
