/**
  The orchestration in main: the catalog rows of a setlist are filtered to
  chordpro sources, each survivor's transpose amount is resolved from its
  four key columns, the song is rendered, failed renders are dropped, and the
  rendered PDFs are merged into one booklet in catalog order.
 */
module Setlist {
  import opened Wrappers
  import opened KeyModel
  import opened Transpose
  import opened Paginator

  /**
    One catalog row, as the query returns it: the song's file path (NULL from
    the outer join becomes None), the document key letter and accidental
    count (columns Key and TransposeKey), and the target key letter and
    accidental count (columns Transpose and UseSharps).
   */
  datatype CatalogRow = CatalogRow(
    path: Option<string>,
    key: int,
    transposeKey: int,
    transpose: int,
    useSharps: int)

  /**
    One call of generate_path_pdf: the source path, the transpose amount and
    the row position. chordpro receives `Typeset.TypesetArgs(chordpro,
    Some(transpose), tempdir, index)`, so an amount of 0 passes no transpose
    option and an identical flat target passes `--transpose=-12`.
   */
  datatype RenderRequest = RenderRequest(chordpro: string, transpose: int, index: nat)

  /** Python's str.endswith. */
  predicate EndsWith(s: string, suffix: string)
  {
    |suffix| <= |s| && s[|s| - |suffix|..] == suffix
  }

  /** A row the loop renders: its path is present and names a .chordpro file. */
  predicate IsChordProRow(row: CatalogRow)
  {
    row.path.Some? && EndsWith(row.path.value, ".chordpro")
  }

  /**
    A row whose two keys decode without an IndexError (letter index above 6)
    or a KeyError (Cb, Fb, E# or B#).
   */
  predicate Decodable(row: CatalogRow)
  {
    && row.key <= 6 && row.transpose <= 6
    && DetermineKey(row.key, row.transposeKey) in Htfc
    && DetermineKey(row.transpose, row.useSharps) in Htfc
  }

  /** What the source needs of the catalog: every row it gets as far as decoding decodes. */
  predicate CatalogDecodes(rows: seq<CatalogRow>)
  {
    forall i :: 0 <= i < |rows| && IsChordProRow(rows[i]) ==> Decodable(rows[i])
  }

  /**
    The transpose amount of a row: the resolved shift from its document key
    to its target key. It is negative exactly when the target has a letter
    and a negative accidental count, that is when it is spelt flat.
   */
  function TransposeAmount(row: CatalogRow): (amount: int)
    requires Decodable(row)
    ensures -12 <= amount <= 11
    ensures amount < 0 <==> 0 <= row.transpose && row.useSharps < 0
    ensures (amount - (HalfTonesFromC(DetermineKey(row.transpose, row.useSharps)) -
                       HalfTonesFromC(DetermineKey(row.key, row.transposeKey)))) % 12 == 0
  {
    ResolveShift(DetermineKey(row.key, row.transposeKey), DetermineKey(row.transpose, row.useSharps))
  }

  /** The render requests are in strictly increasing row order. */
  predicate IndicesIncreasing(reqs: seq<RenderRequest>)
  {
    forall j, k :: 0 <= j < k < |reqs| ==> reqs[j].index < reqs[k].index
  }

  /**
    `r` is the call generate_path_pdf gets for the row at `r.index`: that row
    has a .chordpro path, and the call passes `dir/path` and the row's
    transpose amount.
   */
  predicate RequestFor(dir: string, rows: seq<CatalogRow>, r: RenderRequest)
  {
    && r.index < |rows|
    && IsChordProRow(rows[r.index])
    && Decodable(rows[r.index])
    && r.chordpro == dir + "/" + rows[r.index].path.value
    && r.transpose == TransposeAmount(rows[r.index])
  }

  /** The call generate_path_pdf gets for the chordpro row at position `i`. */
  function RequestOf(dir: string, rows: seq<CatalogRow>, i: nat): (r: RenderRequest)
    requires i < |rows| && IsChordProRow(rows[i]) && Decodable(rows[i])
    ensures RequestFor(dir, rows, r) && r.index == i
  {
    RenderRequest(dir + "/" + rows[i].path.value, TransposeAmount(rows[i]), i)
  }

  /**
    The calls of generate_path_pdf the loop over `rows` makes: one per
    chordpro row, in row order, with the row's own position as index.
   */
  function Requests(dir: string, rows: seq<CatalogRow>): (reqs: seq<RenderRequest>)
    requires CatalogDecodes(rows)
    ensures |reqs| <= |rows|
    ensures forall k :: 0 <= k < |reqs| ==> RequestFor(dir, rows, reqs[k])
    ensures IndicesIncreasing(reqs)
    decreases |rows|
  {
    if rows == [] then []
    else
      var i := |rows| - 1;
      var row := rows[i];
      assert CatalogDecodes(rows[..i]);
      var prev := Requests(dir, rows[..i]);
      assert forall k :: 0 <= k < |prev| ==> RequestFor(dir, rows, prev[k]) by {
        forall k | 0 <= k < |prev| ensures RequestFor(dir, rows, prev[k]) {
          assert RequestFor(dir, rows[..i], prev[k]);
          assert rows[..i][prev[k].index] == rows[prev[k].index];
        }
      }
      prev + (if IsChordProRow(row) then [RequestOf(dir, rows, i)] else [])
  }

  /** Every chordpro row is requested: the filter drops only rows without a .chordpro path. */
  lemma {:induction false} RequestsComplete(dir: string, rows: seq<CatalogRow>, i: nat)
    requires CatalogDecodes(rows)
    requires i < |rows| && IsChordProRow(rows[i])
    ensures RequestOf(dir, rows, i) in Requests(dir, rows)
  {
    var n := |rows| - 1;
    var init := rows[..n];
    PrefixDecodes(rows, n);
    var prev := Requests(dir, init);
    assert Requests(dir, rows) == prev + (if IsChordProRow(rows[n]) then [RequestOf(dir, rows, n)] else []);
    if i < n {
      assert init[i] == rows[i];
      RequestsComplete(dir, init, i);
      assert RequestOf(dir, init, i) == RequestOf(dir, rows, i);
    }
  }

  /** The requests whose render returned a file, in request order. */
  function Survivors(reqs: seq<RenderRequest>, render: RenderRequest -> Option<string>): (sv: seq<RenderRequest>)
    ensures |sv| <= |reqs|
    ensures forall j :: 0 <= j < |sv| ==> sv[j] in reqs && render(sv[j]).Some?
    ensures IndicesIncreasing(reqs) ==> IndicesIncreasing(sv)
    decreases |reqs|
  {
    if reqs == [] then []
    else
      var n := |reqs| - 1;
      var prev := Survivors(reqs[..n], render);
      assert forall j :: 0 <= j < |prev| ==> prev[j] in reqs;
      if render(reqs[n]).Some? then
        assert IndicesIncreasing(reqs) ==> forall j :: 0 <= j < |prev| ==> prev[j].index < reqs[n].index;
        prev + [reqs[n]]
      else prev
  }

  /** Every request that rendered is kept. */
  lemma {:induction false} SurvivorsComplete(reqs: seq<RenderRequest>, render: RenderRequest -> Option<string>, r: RenderRequest)
    requires r in reqs && render(r).Some?
    ensures r in Survivors(reqs, render)
  {
    var n := |reqs| - 1;
    if r != reqs[n] {
      assert r in reqs[..n];
      SurvivorsComplete(reqs[..n], render, r);
    }
  }

  /** The PDF file names of the surviving requests (the source's output_pdfs). */
  function PdfsOf(sv: seq<RenderRequest>, render: RenderRequest -> Option<string>): (pdfs: seq<string>)
    requires forall j :: 0 <= j < |sv| ==> render(sv[j]).Some?
    ensures |pdfs| == |sv|
    ensures forall j :: 0 <= j < |sv| ==> pdfs[j] == render(sv[j]).value
  {
    seq(|sv|, j requires 0 <= j < |sv| => render(sv[j]).value)
  }

  /**
    A rendered file is in output_pdfs exactly when its row has a path, the
    path ends in .chordpro and the render returned a file; the survivors keep
    catalog order, so their row indices are distinct.
   */
  lemma OutputCharacterization(dir: string, rows: seq<CatalogRow>, render: RenderRequest -> Option<string>, i: nat)
    requires CatalogDecodes(rows) && i < |rows|
    ensures var sv := Survivors(Requests(dir, rows), render);
      && IndicesIncreasing(sv)
      && ((exists j :: 0 <= j < |sv| && sv[j].index == i) <==>
          && rows[i].path.Some?
          && EndsWith(rows[i].path.value, ".chordpro")
          && render(RenderRequest(dir + "/" + rows[i].path.value, TransposeAmount(rows[i]), i)).Some?)
  {
    var reqs := Requests(dir, rows);
    var sv := Survivors(reqs, render);
    if exists j :: 0 <= j < |sv| && sv[j].index == i {
      var j :| 0 <= j < |sv| && sv[j].index == i;
      var k :| 0 <= k < |reqs| && reqs[k] == sv[j];
      assert RequestFor(dir, rows, reqs[k]);
    }
    if IsChordProRow(rows[i]) {
      var r := RequestOf(dir, rows, i);
      if render(r).Some? {
        RequestsComplete(dir, rows, i);
        SurvivorsComplete(reqs, render, r);
        var j :| 0 <= j < |sv| && sv[j] == r;
        assert sv[j].index == i;
      }
    }
  }

  /** Prefixes of a decodable catalog are decodable. */
  lemma PrefixDecodes(rows: seq<CatalogRow>, i: nat)
    requires CatalogDecodes(rows) && i <= |rows|
    ensures CatalogDecodes(rows[..i])
  {
  }

  /** One more row adds at most its own request. */
  lemma RequestsStep(dir: string, rows: seq<CatalogRow>, i: nat)
    requires CatalogDecodes(rows) && i < |rows|
    ensures CatalogDecodes(rows[..i]) && CatalogDecodes(rows[..i + 1])
    ensures Requests(dir, rows[..i + 1]) == Requests(dir, rows[..i]) +
      (if IsChordProRow(rows[i])
       then [RequestOf(dir, rows[..i + 1], i)]
       else [])
  {
    PrefixDecodes(rows, i);
    PrefixDecodes(rows, i + 1);
    assert rows[..i + 1][..i] == rows[..i];
  }

  /** One more request adds itself to the survivors exactly when it renders. */
  lemma SurvivorsStep(reqs: seq<RenderRequest>, r: RenderRequest, render: RenderRequest -> Option<string>)
    ensures Survivors(reqs + [r], render) ==
      Survivors(reqs, render) + (if render(r).Some? then [r] else [])
  {
  }

  /** One more survivor adds its file name. */
  lemma PdfsStep(sv: seq<RenderRequest>, r: RenderRequest, render: RenderRequest -> Option<string>)
    requires forall j :: 0 <= j < |sv| ==> render(sv[j]).Some?
    requires render(r).Some?
    ensures PdfsOf(sv + [r], render) == PdfsOf(sv, render) + [render(r).value]
  {
  }

  /**
    The loop of main over the catalog rows: skip rows without a .chordpro
    path, resolve the transpose amount, render, keep the file when the render
    returned one. `render` stands for generate_path_pdf.
   */
  method RenderSetlist(dir: string, rows: seq<CatalogRow>, render: RenderRequest -> Option<string>)
    returns (requests: seq<RenderRequest>, outputPdfs: seq<string>)
    requires CatalogDecodes(rows)
    ensures requests == Requests(dir, rows)
    ensures outputPdfs == PdfsOf(Survivors(requests, render), render)
  {
    requests, outputPdfs := [], [];
    ghost var survivors: seq<RenderRequest> := [];
    for i := 0 to |rows|
      invariant CatalogDecodes(rows[..i])
      invariant requests == Requests(dir, rows[..i])
      invariant survivors == Survivors(requests, render)
      invariant outputPdfs == PdfsOf(survivors, render)
    {
      RequestsStep(dir, rows, i);
      var f := rows[i];
      if f.path.None? {
        continue;
      }
      var p := f.path.value;
      if !EndsWith(p, ".chordpro") {
        continue;
      }
      var documentKey := DetermineKey(f.key, f.transposeKey);
      var transposeKey := DetermineKey(f.transpose, f.useSharps);
      var transposeAmount := ResolveShift(documentKey, transposeKey);
      var request := RenderRequest(dir + "/" + p, transposeAmount, i);
      SurvivorsStep(requests, request, render);
      requests := requests + [request];
      var pdfFile := render(request);
      if pdfFile.Some? {
        PdfsStep(survivors, request, render);
        survivors := survivors + [request];
        outputPdfs := outputPdfs + [pdfFile.value];
      }
    }
    assert rows[..|rows|] == rows;
  }

  /** The page counts of the rendered files, in output order. */
  function PageCounts(pdfs: seq<string>, pageCount: string -> nat): (counts: seq<nat>)
    ensures |counts| == |pdfs|
    ensures forall j :: 0 <= j < |pdfs| ==> counts[j] == pageCount(pdfs[j])
  {
    seq(|pdfs|, j requires 0 <= j < |pdfs| => pageCount(pdfs[j]))
  }

  /**
    main end to end: the booklet is the paginated merge of the rendered files
    only, so a song that failed to render leaves no pages and does not move
    the running page count.
   */
  method TypesetSetlist(dir: string, rows: seq<CatalogRow>, render: RenderRequest -> Option<string>,
                        pageCount: string -> nat)
    returns (booklet: seq<Page>)
    requires CatalogDecodes(rows)
    ensures booklet == Booklet(PageCounts(PdfsOf(Survivors(Requests(dir, rows), render), render), pageCount))
  {
    var requests, outputPdfs := RenderSetlist(dir, rows, render);
    booklet := Paginate(PageCounts(outputPdfs, pageCount));
  }
}
