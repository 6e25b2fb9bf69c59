/** The bad-pixel extension collector (`get_badpix_exts`).

    Every file is kept only if its primary header names the NuSTAR telescope
    and the FPMA or FPMB module; from a kept file, every later unit that
    passes the table test is appended, in order, to the list of its module.
    Missing keywords skip the file or the unit. */
module Collector {
  import opened Fits
  import opened Tables
  import opened Applicator

  /** The two focal-plane modules, the keys of the collector's result. */
  datatype Fpm = A | B

  /** The module of a file from its primary header: 'A' for INSTRUME FPMA,
      'B' for FPMB, None when TELESCOP is not NuSTAR or either keyword is
      missing or unknown. */
  function ModuleOf(h: Header): (ab: Option<Fpm>)
    ensures ab.Some? <==> ("TELESCOP" in h && h["TELESCOP"] == Text("NuSTAR")
                           && "INSTRUME" in h && h["INSTRUME"] in {Text("FPMA"), Text("FPMB")})
    ensures ab == Some(A) ==> h["INSTRUME"] == Text("FPMA")
    ensures ab == Some(B) ==> h["INSTRUME"] == Text("FPMB")
  {
    if "TELESCOP" !in h || h["TELESCOP"] != Text("NuSTAR") then None
    else if "INSTRUME" !in h then None
    else if h["INSTRUME"] == Text("FPMA") then Some(A)
    else if h["INSTRUME"] == Text("FPMB") then Some(B)
    else None
  }

  /** The table test of lines 135-143: a BINTABLE whose EXTNAME contains
      'BADPIX' exactly when `marked` holds, and whose DETNAM is a known
      detector name. The source tests with `marked` false. */
  predicate TableAccepted(h: Header, marked: bool)
  {
    && "XTENSION" in h && h["XTENSION"] == Text("BINTABLE")
    && "EXTNAME" in h && h["EXTNAME"].Text? && Contains(h["EXTNAME"].text, "BADPIX") == marked
    && "DETNAM" in h && h["DETNAM"].Text? && h["DETNAM"].text in DETNAM
  }

  /** The `in` test on EXTNAME is reached only for a BINTABLE, and raises on a
      numeric EXTNAME. */
  predicate UnitOk(h: Header)
  {
    "XTENSION" in h && h["XTENSION"] == Text("BINTABLE") && "EXTNAME" in h ==> h["EXTNAME"].Text?
  }

  /** Every file has a primary unit, and the later units of a file of module
      A or B, the only ones the source reads, can be tested. */
  predicate FilesOk(files: seq<seq<Hdu<BadRecord>>>)
  {
    forall f :: 0 <= f < |files| ==>
      && |files[f]| > 0
      && (ModuleOf(files[f][0].header).Some? ==> forall k :: 1 <= k < |files[f]| ==> UnitOk(files[f][k].header))
  }

  /** The accepted units of a list, in order. */
  function Accepted(units: seq<Hdu<BadRecord>>, marked: bool): seq<Hdu<BadRecord>>
  {
    if units == [] then []
    else
      var u := units[|units| - 1];
      Accepted(units[..|units| - 1], marked) + (if TableAccepted(u.header, marked) then [u] else [])
  }

  /** The list of module `ab`: the accepted units of every file of that
      module, in file order and unit order. */
  function Collected(files: seq<seq<Hdu<BadRecord>>>, ab: Fpm, marked: bool): seq<Hdu<BadRecord>>
    requires FilesOk(files)
  {
    if files == [] then []
    else
      var ff := files[|files| - 1];
      var front := files[..|files| - 1];
      assert forall f :: 0 <= f < |front| ==> front[f] == files[f];
      Collected(front, ab, marked) + (if ModuleOf(ff[0].header) == Some(ab) then Accepted(ff[1..], marked) else [])
  }

  /** The inner loop of lines 133-143: the units after the primary one that
      pass the table test, appended in order to `group`. */
  method AppendAccepted(group: seq<Hdu<BadRecord>>, ff: seq<Hdu<BadRecord>>) returns (group': seq<Hdu<BadRecord>>)
    requires |ff| > 0
    ensures group' == group + Accepted(ff[1..], false)
  {
    group' := group;
    var k := 1;
    while k < |ff|
      invariant 1 <= k <= |ff|
      invariant group' == group + Accepted(ff[1..k], false)
    {
      var ext := ff[k];
      AcceptedSnoc(ff, k, false);
      if TableAccepted(ext.header, false) {
        group' := group' + [ext];
      }
      k := k + 1;
    }
    assert ff[1..|ff|] == ff[1..];
  }

  /** `get_badpix_exts`: lists for 'A' and 'B', always both present, holding
      what the table test accepts from the files of each module. */
  method GetBadpixExts(files: seq<seq<Hdu<BadRecord>>>) returns (bpixlist: map<Fpm, seq<Hdu<BadRecord>>>)
    requires FilesOk(files)
    ensures bpixlist.Keys == {A, B}
    ensures bpixlist[A] == Collected(files, A, false)
    ensures bpixlist[B] == Collected(files, B, false)
  {
    bpixlist := map[A := [], B := []];
    var f := 0;
    while f < |files|
      invariant 0 <= f <= |files|
      invariant FilesOk(files[..f])
      invariant bpixlist.Keys == {A, B}
      invariant bpixlist[A] == Collected(files[..f], A, false)
      invariant bpixlist[B] == Collected(files[..f], B, false)
    {
      var ff := files[f];
      CollectedSnoc(files, f, A, false);
      CollectedSnoc(files, f, B, false);
      var ab := ModuleOf(ff[0].header);
      if ab.Some? {
        var group := AppendAccepted(bpixlist[ab.value], ff);
        bpixlist := bpixlist[ab.value := group];
      }
      f := f + 1;
    }
    assert files[..|files|] == files;
  }

  // ---------------------------------------------------------------------
  // Properties

  /** One more unit extends the accepted list by itself, or by nothing. */
  lemma AcceptedSnoc(units: seq<Hdu<BadRecord>>, k: int, marked: bool)
    requires 1 <= k < |units|
    ensures Accepted(units[1..k + 1], marked)
      == Accepted(units[1..k], marked) + (if TableAccepted(units[k].header, marked) then [units[k]] else [])
  {
    assert units[1..k + 1][..k - 1] == units[1..k];
    assert units[1..k + 1][k - 1] == units[k];
  }

  /** One more file extends each module's list by that file's accepted
      units, or by nothing. */
  lemma CollectedSnoc(files: seq<seq<Hdu<BadRecord>>>, f: int, ab: Fpm, marked: bool)
    requires FilesOk(files) && 0 <= f < |files|
    ensures FilesOk(files[..f]) && FilesOk(files[..f + 1])
    ensures Collected(files[..f + 1], ab, marked) == Collected(files[..f], ab, marked)
      + (if ModuleOf(files[f][0].header) == Some(ab) then Accepted(files[f][1..], marked) else [])
  {
    assert files[..f + 1][..f] == files[..f];
    assert files[..f + 1][f] == files[f];
  }

  /** Everything in a module's list passed the table test. */
  lemma {:induction false} CollectedSound(files: seq<seq<Hdu<BadRecord>>>, ab: Fpm, marked: bool)
    requires FilesOk(files)
    ensures forall i :: 0 <= i < |Collected(files, ab, marked)| ==>
      TableAccepted(Collected(files, ab, marked)[i].header, marked)
  {
    if files != [] {
      var front := files[..|files| - 1];
      assert forall f :: 0 <= f < |front| ==> front[f] == files[f];
      CollectedSound(front, ab, marked);
      AcceptedSound(files[|files| - 1][1..], marked);
    }
  }

  lemma {:induction false} AcceptedSound(units: seq<Hdu<BadRecord>>, marked: bool)
    ensures forall i :: 0 <= i < |Accepted(units, marked)| ==> TableAccepted(Accepted(units, marked)[i].header, marked)
  {
    if units != [] {
      AcceptedSound(units[..|units| - 1], marked);
    }
  }

  lemma {:induction false} AcceptedComplete(units: seq<Hdu<BadRecord>>, marked: bool, k: int)
    requires 0 <= k < |units| && TableAccepted(units[k].header, marked)
    ensures units[k] in Accepted(units, marked)
  {
    if k < |units| - 1 {
      var front := units[..|units| - 1];
      assert front[k] == units[k];
      AcceptedComplete(front, marked, k);
    }
  }

  /** Every unit (after the primary) of a file of module `ab` that passes
      the table test is in that module's list. */
  lemma {:induction false} CollectedComplete(files: seq<seq<Hdu<BadRecord>>>, ab: Fpm, marked: bool, f: int, k: int)
    requires FilesOk(files) && 0 <= f < |files| && 1 <= k < |files[f]|
    requires ModuleOf(files[f][0].header) == Some(ab) && TableAccepted(files[f][k].header, marked)
    ensures files[f][k] in Collected(files, ab, marked)
  {
    var front := files[..|files| - 1];
    assert forall g :: 0 <= g < |front| ==> front[g] == files[g];
    if f == |files| - 1 {
      var ff := files[f];
      assert ff[1..][k - 1] == ff[k];
      AcceptedComplete(ff[1..], marked, k - 1);
    } else {
      CollectedComplete(front, ab, marked, f, k);
    }
  }

  /** As written, nothing the collector returns is a table that
      `apply_badpix` would process: every collected unit lacks 'BADPIX' in
      its EXTNAME. */
  lemma AsWrittenNeverApplied(files: seq<seq<Hdu<BadRecord>>>, ab: Fpm)
    requires FilesOk(files)
    ensures forall i :: 0 <= i < |Collected(files, ab, false)| ==> !BadpixTable(Collected(files, ab, false)[i].header)
  {
    CollectedSound(files, ab, false);
  }

  /** As written, a NuSTAR FPMA file holding one BADPIX table for DET0
      contributes nothing, while the intended test collects that table. */
  lemma AsWrittenSkipsBadpixTable(rows: seq<BadRecord>)
    ensures var primary := Hdu(map["TELESCOP" := Text("NuSTAR"), "INSTRUME" := Text("FPMA")], []);
      var table := Hdu(map["XTENSION" := Text("BINTABLE"), "EXTNAME" := Text("BADPIX"), "DETNAM" := Text("DET0")], rows);
      FilesOk([[primary, table]])
      && Collected([[primary, table]], A, false) == []
      && Collected([[primary, table]], A, true) == [table]
  {
    var primary := Hdu(map["TELESCOP" := Text("NuSTAR"), "INSTRUME" := Text("FPMA")], []);
    var table := Hdu(map["XTENSION" := Text("BINTABLE"), "EXTNAME" := Text("BADPIX"), "DETNAM" := Text("DET0")], rows);
    var files := [[primary, table]];
    assert Contains("BADPIX", "BADPIX");
    assert ModuleOf(primary.header) == Some(A);
    assert !TableAccepted(table.header, false) && TableAccepted(table.header, true);
    assert files[..0] == [];
    assert [primary, table][1..] == [table];
    assert [table][..0] == [];
    assert Accepted([table], false) == [];
    assert Accepted([table], true) == [table];
  }

  /** A file of another telescope is skipped before its units are read: even
      a BINTABLE with a numeric EXTNAME is admitted and contributes nothing. */
  lemma SkippedFileNotRead(rows: seq<BadRecord>, ab: Fpm, marked: bool)
    ensures var primary := Hdu(map["TELESCOP" := Text("Other")], []);
      var unit := Hdu(map["XTENSION" := Text("BINTABLE"), "EXTNAME" := Number(5.0)], rows);
      FilesOk([[primary, unit]]) && !UnitOk(unit.header)
      && Collected([[primary, unit]], ab, marked) == []
  {
    var primary := Hdu(map["TELESCOP" := Text("Other")], []);
    var unit := Hdu(map["XTENSION" := Text("BINTABLE"), "EXTNAME" := Number(5.0)], rows);
    var files := [[primary, unit]];
    assert ModuleOf(primary.header) == None;
    assert files[..0] == [];
  }

  /** With the intended test, everything collected is a table that
      `apply_badpix` processes. */
  lemma IntendedFeedsApplicator(files: seq<seq<Hdu<BadRecord>>>, ab: Fpm)
    requires FilesOk(files)
    ensures forall i :: 0 <= i < |Collected(files, ab, true)| ==> BadpixTable(Collected(files, ab, true)[i].header)
  {
    CollectedSound(files, ab, true);
  }
}
