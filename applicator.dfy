/** The bad-pixel applicator (`apply_badpix`).

    The output starts as a copy of the instrument map. Every record of every
    BADPIX table zeroes the cells resolved to its raw pixel and detector when
    it disqualifies (long enough, or flagged), and after every record each
    positive cell is increased by its detector index.

    Every cell evolves on its own, from its base value, its resolved raw pixel
    and its detector index, so the grid is specified cell by cell by
    `ApplyTables`. */
module Applicator {
  import opened Fits
  import opened Tables

  /** One row of a BADPIX table. `severe` stands for the flag test
      `flags[i][-2] is True`. */
  datatype BadRecord = BadRecord(rawx: int, rawy: int, time: real, timeStop: real, severe: bool)

  /** Both time keywords, when present, carry numbers. */
  predicate DurationOk(h: Header)
  {
    "TSTART" in h && "TSTOP" in h ==> h["TSTART"].Number? && h["TSTOP"].Number?
  }

  /** The observation length TSTOP - TSTART, unknown unless the primary header
      has both keywords. */
  function Duration(h: Header): (tobs: Option<real>)
    requires DurationOk(h)
    ensures tobs.Some? <==> "TSTART" in h && "TSTOP" in h
  {
    if "TSTART" in h && "TSTOP" in h then Some(h["TSTOP"].value - h["TSTART"].value) else None
  }

  /** A record disqualifies its pixel when the observation length is known
      and the record's interval is longer than 80% of it, or when it is
      flagged. */
  predicate Disqualifies(rec: BadRecord, tobs: Option<real>)
  {
    (tobs.Some? && rec.timeStop - rec.time > 0.8 * tobs.value) || rec.severe
  }

  /** Record `rec` of detector `idet` zeroes a cell resolved to raw pixel
      `pix` of detector `det`. */
  predicate Hits(rec: BadRecord, tobs: Option<real>, idet: int, pix: int, det: int)
  {
    Disqualifies(rec, tobs) && pix == RawId(rec.rawx, rec.rawy) && det == idet
  }

  /** The raw-pixel id as the source computes it from the unsigned-byte RAWX
      and RAWY columns under NumPy 2 promotion rules (NEP 50), where a uint8
      scalar combined with a Python int stays uint8: both the product and the
      sum wrap modulo 256. NumPy 1.x promotes the product to a wider integer
      and computes `RawId` exactly. */
  function RawIdAsWritten(x: int, y: int): int
  {
    (x + (y * 32) % 256) % 256
  }

  /** As written, a record for raw pixel (x, y) of a 32 x 32 detector
      addresses raw pixel (x, y mod 8): every row from y = 8 on is folded
      onto the first eight. */
  lemma AsWrittenAliasesRows(x: int, y: int)
    requires 0 <= x < 32 && 0 <= y < 32
    ensures RawIdAsWritten(x, y) == RawId(x, y % 8)
    ensures y >= 8 ==> RawIdAsWritten(x, y) != RawId(x, y)
  {
    var q := y / 8;
    var m := y % 8;
    assert y == 8 * q + m;
    assert y * 32 == 256 * q + m * 32;
    assert (y * 32) % 256 == m * 32;
    assert x + m * 32 < 256;
  }

  /** One record acting on one cell: zero it if the record hits it, then add
      the detector index if the value is positive. */
  function RecordStep(v: real, pix: int, det: int, idet: int, rec: BadRecord, tobs: Option<real>): real
  {
    var z := if Hits(rec, tobs, idet, pix, det) then 0.0 else v;
    if z > 0.0 then z + det as real else z
  }

  /** The records of one table acting on one cell, in table order. */
  function ApplyRecords(v: real, pix: int, det: int, idet: int, recs: seq<BadRecord>, tobs: Option<real>): real
  {
    if recs == [] then v
    else RecordStep(ApplyRecords(v, pix, det, idet, recs[..|recs| - 1], tobs), pix, det, idet, recs[|recs| - 1], tobs)
  }

  /** Lines 162-165: a unit is processed when its EXTNAME contains 'BADPIX'
      and its DETNAM is a known detector name. */
  predicate BadpixTable(h: Header)
  {
    && "EXTNAME" in h && h["EXTNAME"].Text? && Contains(h["EXTNAME"].text, "BADPIX")
    && "DETNAM" in h && h["DETNAM"].Text? && h["DETNAM"].text in DETNAM
  }

  /** An EXTNAME, when present, is text (`in` on a number raises). */
  predicate ExtnameOk(h: Header)
  {
    "EXTNAME" in h ==> h["EXTNAME"].Text?
  }

  predicate BadpixHdusOk(hdus: seq<Hdu<BadRecord>>)
  {
    forall k :: 0 <= k < |hdus| ==> ExtnameOk(hdus[k].header)
  }

  function TableDetector(h: Header): nat
    requires BadpixTable(h)
  {
    DETNAM[h["DETNAM"].text]
  }

  /** Every processed table acting on one cell, in file order. */
  function ApplyTables(v: real, pix: int, det: int, hdus: seq<Hdu<BadRecord>>, tobs: Option<real>): real
  {
    if hdus == [] then v
    else
      var prev := ApplyTables(v, pix, det, hdus[..|hdus| - 1], tobs);
      var e := hdus[|hdus| - 1];
      if BadpixTable(e.header) then ApplyRecords(prev, pix, det, TableDetector(e.header), e.rows, tobs)
      else prev
  }

  /** Number of records over the processed tables. */
  function RecordCount(hdus: seq<Hdu<BadRecord>>): nat
  {
    if hdus == [] then 0
    else
      var e := hdus[|hdus| - 1];
      RecordCount(hdus[..|hdus| - 1]) + (if BadpixTable(e.header) then |e.rows| else 0)
  }

  // ---------------------------------------------------------------------
  // Properties of one cell

  /** An interval of exactly 80% of the observation does not disqualify an
      unflagged record; a flagged record disqualifies whatever its interval. */
  lemma DisqualifyBoundary(rec: BadRecord, tobs: Option<real>)
    ensures tobs.Some? && !rec.severe && rec.timeStop - rec.time == 0.8 * tobs.value ==> !Disqualifies(rec, tobs)
    ensures rec.severe ==> Disqualifies(rec, tobs)
  {
  }

  /** Once a record hits a cell, the cell is 0 and stays 0 through every
      later record. */
  lemma {:induction false} RecordsZeroed(v: real, pix: int, det: int, idet: int, recs: seq<BadRecord>, tobs: Option<real>)
    requires exists k :: 0 <= k < |recs| && Hits(recs[k], tobs, idet, pix, det)
    ensures ApplyRecords(v, pix, det, idet, recs, tobs) == 0.0
  {
    var front := recs[..|recs| - 1];
    if !Hits(recs[|recs| - 1], tobs, idet, pix, det) {
      var k :| 0 <= k < |recs| && Hits(recs[k], tobs, idet, pix, det);
      assert front[k] == recs[k];
      RecordsZeroed(v, pix, det, idet, front, tobs);
    }
  }

  /** A zero cell is left at zero by any records. */
  lemma {:induction false} ZeroStaysZero(pix: int, det: int, idet: int, recs: seq<BadRecord>, tobs: Option<real>)
    ensures ApplyRecords(0.0, pix, det, idet, recs, tobs) == 0.0
  {
    if recs != [] {
      ZeroStaysZero(pix, det, idet, recs[..|recs| - 1], tobs);
    }
  }

  /** A cell that no record hits: a non-positive value is left as it is, and
      a positive value with a non-negative detector index gains the index
      once per record. */
  lemma {:induction false} RecordsUntouched(v: real, pix: int, det: int, idet: int, recs: seq<BadRecord>, tobs: Option<real>)
    requires forall k :: 0 <= k < |recs| ==> !Hits(recs[k], tobs, idet, pix, det)
    ensures v <= 0.0 ==> ApplyRecords(v, pix, det, idet, recs, tobs) == v
    ensures v > 0.0 && det >= 0 ==> ApplyRecords(v, pix, det, idet, recs, tobs) == v + (det * |recs|) as real
  {
    if recs != [] {
      var front := recs[..|recs| - 1];
      assert forall k :: 0 <= k < |front| ==> front[k] == recs[k];
      RecordsUntouched(v, pix, det, idet, front, tobs);
      if v > 0.0 && det >= 0 {
        assert (det * |recs|) as real == (det * |front|) as real + det as real;
      }
    }
  }

  /** The loss over a + b records is the loss over a records and then over
      b records, and it does not shrink as records are added. */
  lemma LossSplits(det: int, a: nat, b: nat)
    requires det <= 0
    ensures det * (a + b) == det * a + det * b
    ensures -det * a == -(det * a) && -det * b == -(det * b) && -det * (a + b) == -(det * (a + b))
    ensures det * b <= 0
    ensures -det * a <= -det * (a + b)
  {
    assert -det * (a + b) == -det * a + -det * b;
    assert -det * b >= 0;
  }

  /** A cell that no record hits, with a detector index of at most 0 (the
      unresolved cells hold -1): it never grows, a positive value stays above
      the index, and it loses |det| per record for as long as it stays
      positive. */
  lemma {:induction false} RecordsUnresolved(v: real, pix: int, det: int, idet: int, recs: seq<BadRecord>, tobs: Option<real>)
    requires det <= 0
    requires forall k :: 0 <= k < |recs| ==> !Hits(recs[k], tobs, idet, pix, det)
    ensures ApplyRecords(v, pix, det, idet, recs, tobs) <= v
    ensures v > 0.0 ==> ApplyRecords(v, pix, det, idet, recs, tobs) > det as real
    ensures v > (-det * |recs|) as real ==> ApplyRecords(v, pix, det, idet, recs, tobs) == v + (det * |recs|) as real
  {
    if recs != [] {
      var front := recs[..|recs| - 1];
      assert forall k :: 0 <= k < |front| ==> front[k] == recs[k];
      RecordsUnresolved(v, pix, det, idet, front, tobs);
      var n := |recs|;
      LossSplits(det, n - 1, 1);
      if v > (-det * n) as real {
        var f := ApplyRecords(v, pix, det, idet, front, tobs);
        assert f == v + (det * (n - 1)) as real;
        assert f > 0.0;
      }
    }
  }

  /** Across the whole file: a non-positive cell that no record hits is left
      as it is. */
  lemma {:induction false} TablesNonPositive(v: real, pix: int, det: int, hdus: seq<Hdu<BadRecord>>, tobs: Option<real>)
    requires v <= 0.0
    requires forall j, k :: 0 <= j < |hdus| && BadpixTable(hdus[j].header) && 0 <= k < |hdus[j].rows| ==>
      !Hits(hdus[j].rows[k], tobs, TableDetector(hdus[j].header), pix, det)
    ensures ApplyTables(v, pix, det, hdus, tobs) == v
  {
    if hdus != [] {
      var front := hdus[..|hdus| - 1];
      var e := hdus[|hdus| - 1];
      assert forall j :: 0 <= j < |front| ==> front[j] == hdus[j];
      TablesNonPositive(v, pix, det, front, tobs);
      if BadpixTable(e.header) {
        RecordsUntouched(v, pix, det, TableDetector(e.header), e.rows, tobs);
      }
    }
  }

  /** Across the whole file, a cell that no record hits with a detector index
      of at most 0: it never grows, and a value above |det| times the number
      of records loses exactly that much. */
  lemma {:induction false} TablesUnresolved(v: real, pix: int, det: int, hdus: seq<Hdu<BadRecord>>, tobs: Option<real>)
    requires det <= 0
    requires forall j, k :: 0 <= j < |hdus| && BadpixTable(hdus[j].header) && 0 <= k < |hdus[j].rows| ==>
      !Hits(hdus[j].rows[k], tobs, TableDetector(hdus[j].header), pix, det)
    ensures ApplyTables(v, pix, det, hdus, tobs) <= v
    ensures v > (-det * RecordCount(hdus)) as real ==> ApplyTables(v, pix, det, hdus, tobs) == v + (det * RecordCount(hdus)) as real
  {
    if hdus != [] {
      var front := hdus[..|hdus| - 1];
      var e := hdus[|hdus| - 1];
      assert forall j :: 0 <= j < |front| ==> front[j] == hdus[j];
      TablesUnresolved(v, pix, det, front, tobs);
      var prev := ApplyTables(v, pix, det, front, tobs);
      var a := RecordCount(front);
      if BadpixTable(e.header) {
        var b := |e.rows|;
        var idet := TableDetector(e.header);
        assert RecordCount(hdus) == a + b;
        assert ApplyTables(v, pix, det, hdus, tobs) == ApplyRecords(prev, pix, det, idet, e.rows, tobs);
        assert forall k :: 0 <= k < b ==> !Hits(e.rows[k], tobs, idet, pix, det) by {
          assert hdus[|hdus| - 1] == e;
        }
        LossSplits(det, a, b);
        RecordsUnresolved(prev, pix, det, idet, e.rows, tobs);
        if v > (-det * (a + b)) as real {
          assert prev == v + (det * a) as real;
          assert prev > (-det * b) as real;
        }
      } else {
        assert RecordCount(hdus) == a;
      }
    }
  }

  /** Across the whole file: a cell hit by any record of any processed table
      ends at 0. */
  lemma {:induction false} TablesZeroed(v: real, pix: int, det: int, hdus: seq<Hdu<BadRecord>>, tobs: Option<real>,
                                        j: int, k: int)
    requires 0 <= j < |hdus| && BadpixTable(hdus[j].header) && 0 <= k < |hdus[j].rows|
    requires Hits(hdus[j].rows[k], tobs, TableDetector(hdus[j].header), pix, det)
    ensures ApplyTables(v, pix, det, hdus, tobs) == 0.0
  {
    var front := hdus[..|hdus| - 1];
    var e := hdus[|hdus| - 1];
    var prev := ApplyTables(v, pix, det, front, tobs);
    if j == |hdus| - 1 {
      RecordsZeroed(prev, pix, det, TableDetector(e.header), e.rows, tobs);
    } else {
      assert front[j] == hdus[j];
      TablesZeroed(v, pix, det, front, tobs, j, k);
      if BadpixTable(e.header) {
        ZeroStaysZero(pix, det, TableDetector(e.header), e.rows, tobs);
      }
    }
  }

  /** Across the whole file: a positive cell that no record hits ends at its
      base value plus its detector index times the number of records. */
  lemma {:induction false} TablesUntouched(v: real, pix: int, det: int, hdus: seq<Hdu<BadRecord>>, tobs: Option<real>)
    requires v > 0.0 && det >= 0
    requires forall j, k :: 0 <= j < |hdus| && BadpixTable(hdus[j].header) && 0 <= k < |hdus[j].rows| ==>
      !Hits(hdus[j].rows[k], tobs, TableDetector(hdus[j].header), pix, det)
    ensures ApplyTables(v, pix, det, hdus, tobs) == v + (det * RecordCount(hdus)) as real
  {
    if hdus != [] {
      var front := hdus[..|hdus| - 1];
      var e := hdus[|hdus| - 1];
      assert forall j :: 0 <= j < |front| ==> front[j] == hdus[j];
      TablesUntouched(v, pix, det, front, tobs);
      var prev := ApplyTables(v, pix, det, front, tobs);
      var a := RecordCount(front);
      assert det * a >= 0;
      if BadpixTable(e.header) {
        var b := |e.rows|;
        assert RecordCount(hdus) == a + b;
        assert det * (a + b) == det * a + det * b;
        RecordsUntouched(prev, pix, det, TableDetector(e.header), e.rows, tobs);
      }
    }
  }

  // ---------------------------------------------------------------------
  // The algorithm on arrays

  predicate SameShape(output: array2<real>, pixmap: array2<int>, detnum: array2<int>)
  {
    pixmap.Length0 == output.Length0 && pixmap.Length1 == output.Length1
    && detnum.Length0 == output.Length0 && detnum.Length1 == output.Length1
  }

  /** Lines 179-186 for one record: zero the hit cells, then add `detnum` to
      every positive cell. */
  method ApplyRecord(output: array2<real>, pixmap: array2<int>, detnum: array2<int>,
                     idet: int, rec: BadRecord, tobs: Option<real>)
    requires SameShape(output, pixmap, detnum)
    modifies output
    ensures forall r, c :: 0 <= r < output.Length0 && 0 <= c < output.Length1 ==>
      output[r, c] == RecordStep(old(output[r, c]), pixmap[r, c], detnum[r, c], idet, rec, tobs)
  {
    if Disqualifies(rec, tobs) {
      var id := RawId(rec.rawx, rec.rawy);
      forall r, c | 0 <= r < output.Length0 && 0 <= c < output.Length1 && pixmap[r, c] == id && detnum[r, c] == idet {
        output[r, c] := 0.0;
      }
    }
    forall r, c | 0 <= r < output.Length0 && 0 <= c < output.Length1 && output[r, c] > 0.0 {
      output[r, c] := output[r, c] + detnum[r, c] as real;
    }
  }

  /** `apply_badpix`: a fresh grid equal, cell by cell, to the base value
      after every record of every processed table. */
  method ApplyBadpix(instrmap: array2<real>, hdus: seq<Hdu<BadRecord>>, pixmap: array2<int>, detnum: array2<int>)
    returns (output: array2<real>)
    requires |hdus| > 0 && DurationOk(hdus[0].header) && BadpixHdusOk(hdus)
    requires SameShape(instrmap, pixmap, detnum)
    ensures fresh(output) && output.Length0 == instrmap.Length0 && output.Length1 == instrmap.Length1
    ensures forall r, c :: 0 <= r < output.Length0 && 0 <= c < output.Length1 ==>
      output[r, c] == ApplyTables(instrmap[r, c], pixmap[r, c], detnum[r, c], hdus, Duration(hdus[0].header))
  {
    output := new real[instrmap.Length0, instrmap.Length1];
    forall r, c | 0 <= r < instrmap.Length0 && 0 <= c < instrmap.Length1 {
      output[r, c] := instrmap[r, c];
    }
    var tobs := Duration(hdus[0].header);
    var e := 0;
    while e < |hdus|
      invariant 0 <= e <= |hdus|
      invariant forall r, c :: 0 <= r < output.Length0 && 0 <= c < output.Length1 ==>
        output[r, c] == ApplyTables(instrmap[r, c], pixmap[r, c], detnum[r, c], hdus[..e], tobs)
    {
      var ext := hdus[e];
      assert hdus[..e + 1][..e] == hdus[..e];
      assert hdus[..e + 1][e] == ext;
      if BadpixTable(ext.header) {
        var idet := TableDetector(ext.header);
        var recs := ext.rows;
        var i := 0;
        while i < |recs|
          invariant 0 <= i <= |recs|
          invariant forall r, c :: 0 <= r < output.Length0 && 0 <= c < output.Length1 ==>
            output[r, c] == ApplyRecords(ApplyTables(instrmap[r, c], pixmap[r, c], detnum[r, c], hdus[..e], tobs),
                                         pixmap[r, c], detnum[r, c], idet, recs[..i], tobs)
        {
          ApplyRecord(output, pixmap, detnum, idet, recs[i], tobs);
          assert recs[..i + 1][..i] == recs[..i];
          assert recs[..i + 1][i] == recs[i];
          i := i + 1;
        }
        assert recs[..|recs|] == recs;
      }
      e := e + 1;
    }
    assert hdus[..|hdus|] == hdus;
  }
}
