/** The driver (`process_pdf_simple`): derives the model name, finds the
    anchor page, reads the spare-parts list from it, then walks every later
    page, sending substantial pages to the table extractor or the image
    extractor, and collects everything in one result record that it updates
    in place. */
module Processor {
  import opened Strings
  import opened Options
  import opened Document
  import opened ModelName
  import opened Anchor
  import opened TableCheck
  import opened SpareParts
  import opened TableExtract
  import opened Images

  /** Pages whose stripped text is shorter than this are passed over. */
  const MinPageContent: nat := 100

  /** The `status` entry; the text of an error is not modelled. */
  datatype Status = Unknown | Success | Failed

  /** The value of a result record at one moment. */
  datatype Outcome = Outcome(modelName: string, spareParts: seq<SparePart>, images: seq<string>,
                             tables: seq<Table>, status: Status)

  /** The result record the driver fills in. */
  class ProcessingResult {
    var modelName: string
    var spareParts: seq<SparePart>
    var images: seq<string>
    var tables: seq<Table>
    var status: Status

    /** A fresh record: the model name, empty lists, status unknown. */
    constructor (model: string)
      ensures modelName == model && spareParts == [] && images == [] && tables == [] && status == Unknown
    {
      modelName := model;
      spareParts := [];
      images := [];
      tables := [];
      status := Unknown;
    }

    function Snapshot(): Outcome
      reads this
    {
      Outcome(modelName, spareParts, images, tables, status)
    }
  }

  /** What one page after the anchor adds. */
  datatype Contribution = Contribution(tables: seq<Table>, images: seq<string>)

  /** The contribution of the page at `index`: nothing when its text cannot
      be read or, stripped, is under 100 characters; its table when it is
      classified as a table; otherwise its images. */
  function PageContribution(page: Page, index: nat, model: string): (c: Contribution)
    ensures |c.tables| <= 1 && (c.tables == [] || c.images == [])
  {
    match page.text
    case None => Contribution([], [])
    case Some(text) =>
      if |Strip(text, Space)| < MinPageContent then Contribution([], [])
      else if IsTablePage(text) then Contribution(TableOf(text, index, model), [])
      else Contribution([], ImageRefs(page, model, index))
  }

  /** A page adds a table or images, never both; only a page whose
      stripped text has at least 100 characters adds anything; a table is
      added exactly when the page is classified as a table and yields rows,
      and it carries the page's number; images are added only for a page not
      classified as a table, and then they are all the page's references. */
  lemma PageContributionShape(page: Page, index: nat, model: string)
    ensures var c := PageContribution(page, index, model);
      (c.tables == [] || c.images == []) &&
      ((c.tables != [] || c.images != []) ==> page.text.Some? && |Strip(page.text.value, Space)| >= MinPageContent) &&
      (c.tables != [] ==> IsTablePage(page.text.value) && |c.tables| == 1 && c.tables[0].page == DisplayPage(index)) &&
      (c.images != [] ==> !IsTablePage(page.text.value) && c.images == ImageRefs(page, model, index))
    ensures var c := PageContribution(page, index, model);
      match page.text
      case None => c == Contribution([], [])
      case Some(text) =>
        (|Strip(text, Space)| < MinPageContent ==> c == Contribution([], [])) &&
        (|Strip(text, Space)| >= MinPageContent && IsTablePage(text) ==>
           c.tables == TableOf(text, index, model) && c.images == []) &&
        (|Strip(text, Space)| >= MinPageContent && !IsTablePage(text) ==>
           c.tables == [] && c.images == ImageRefs(page, model, index))
  {
  }

  /** The contributions in `cs` from `lo` up to, not including, `hi`,
      concatenated in order. */
  function Gather(cs: seq<Contribution>, lo: nat, hi: nat): Contribution
    requires lo <= hi <= |cs|
    decreases hi - lo
  {
    if hi == lo then Contribution([], [])
    else
      var c := Gather(cs, lo, hi - 1);
      Contribution(c.tables + cs[hi - 1].tables, c.images + cs[hi - 1].images)
  }

  /** The contribution of every page. */
  function Contributions(pages: seq<Page>, model: string): (cs: seq<Contribution>)
    ensures |cs| == |pages|
  {
    seq(|pages|, j requires 0 <= j < |pages| => PageContribution(pages[j], j, model))
  }

  /** The contributions of the pages from `lo` up to, not including, `hi`,
      concatenated in page order. */
  function Walk(pages: seq<Page>, lo: nat, hi: nat, model: string): Contribution
    requires lo <= hi <= |pages|
  {
    Gather(Contributions(pages, model), lo, hi)
  }

  /** The record `process_pdf_simple` returns for a file with stem `stem`:
      none when the file is missing, a failed record holding only the model
      name when it cannot be opened, otherwise a successful record; without
      an anchor page its lists stay empty. */
  function Expected(stem: string, src: Source): (r: Option<Outcome>)
    ensures r.None? <==> src.Missing?
    ensures r.Some? ==> r.value.modelName == ModelName.ModelName(stem)
    ensures r.Some? ==> (r.value.status == Failed <==> src.Unopenable?)
    ensures r.Some? ==> (r.value.status == Success <==> src.Opened?)
    ensures src.Unopenable? ==> r.value.spareParts == [] && r.value.images == [] && r.value.tables == []
  {
    match src
    case Missing => None
    case Unopenable => Some(Outcome(ModelName.ModelName(stem), [], [], [], Failed))
    case Opened(pages) => Some(Reported(pages, ModelName.ModelName(stem)))
  }

  /** The record of a file that opened: empty lists without an anchor page;
      otherwise the spare parts of the anchor page and what the pages after
      it contribute. */
  function Reported(pages: seq<Page>, model: string): (r: Outcome)
    ensures r.modelName == model && r.status == Success
    ensures FirstAnchor(pages).None? ==> r.spareParts == [] && r.images == [] && r.tables == []
  {
    match FirstAnchor(pages)
    case None => Outcome(model, [], [], [], Success)
    case Some(a) =>
      var w := Walk(pages, a + 1, |pages|, model);
      Outcome(model, SpareParts.SpareParts(pages[a].text.value, model), w.images, w.tables, Success)
  }

  /** One turn of the page loop: a page whose text cannot be read or is
      too short is passed over; otherwise it is classified once and its
      table or its images are appended to the record. */
  method ProcessPage(r: ProcessingResult, page: Page, index: nat, model: string)
    modifies r
    ensures r.tables == old(r.tables) + PageContribution(page, index, model).tables
    ensures r.images == old(r.images) + PageContribution(page, index, model).images
    ensures r.modelName == old(r.modelName) && r.spareParts == old(r.spareParts) && r.status == old(r.status)
  {
    if page.text.None? {
      return;
    }
    var text := page.text.value;
    if |Strip(text, Space)| < MinPageContent {
      return;
    }
    var isTable := SimpleTableCheck(text);
    if isTable {
      var found := ExtractTable(text, index, model);
      r.tables := r.tables + found;
    } else {
      var refs := ExtractImages(page, model, index);
      r.images := r.images + refs;
    }
  }

  /** The page loop: every page from `lo` on, in order; `cs` holds what
      each page contributes. */
  method WalkPages(r: ProcessingResult, pages: seq<Page>, lo: nat, model: string, ghost cs: seq<Contribution>)
    requires lo <= |pages| == |cs|
    requires forall j {:trigger PageContribution(pages[j], j, model)} | lo <= j < |pages| ::
               cs[j] == PageContribution(pages[j], j, model)
    modifies r
    ensures r.tables == old(r.tables) + Gather(cs, lo, |pages|).tables
    ensures r.images == old(r.images) + Gather(cs, lo, |pages|).images
    ensures r.modelName == old(r.modelName) && r.spareParts == old(r.spareParts) && r.status == old(r.status)
  {
    ghost var tables, images := r.tables, r.images;
    for i := lo to |pages|
      invariant r.tables == tables + Gather(cs, lo, i).tables
      invariant r.images == images + Gather(cs, lo, i).images
      invariant r.modelName == old(r.modelName) && r.spareParts == old(r.spareParts) && r.status == old(r.status)
    {
      assert cs[i] == PageContribution(pages[i], i, model);
      WalkOne(r, pages, lo, i, model, cs, tables, images);
    }
  }

  /** One turn of the page loop keeps the record equal to the walk so far. */
  method WalkOne(r: ProcessingResult, pages: seq<Page>, lo: nat, i: nat, model: string,
                 ghost cs: seq<Contribution>, ghost tables: seq<Table>, ghost images: seq<string>)
    requires lo <= i < |pages| == |cs| && cs[i] == PageContribution(pages[i], i, model)
    requires r.tables == tables + Gather(cs, lo, i).tables
    requires r.images == images + Gather(cs, lo, i).images
    modifies r
    ensures r.tables == tables + Gather(cs, lo, i + 1).tables
    ensures r.images == images + Gather(cs, lo, i + 1).images
    ensures r.modelName == old(r.modelName) && r.spareParts == old(r.spareParts) && r.status == old(r.status)
  {
    ProcessPage(r, pages[i], i, model);
    GatherStep(cs, lo, i);
    Associative(tables, Gather(cs, lo, i).tables, cs[i].tables);
    Associative(images, Gather(cs, lo, i).images, cs[i].images);
  }

  lemma Associative<T>(a: seq<T>, b: seq<T>, c: seq<T>)
    ensures (a + b) + c == a + (b + c)
  {
  }

  /** Gathering one contribution more appends it. */
  lemma GatherStep(cs: seq<Contribution>, lo: nat, i: nat)
    requires lo <= i < |cs|
    ensures Gather(cs, lo, i + 1).tables == Gather(cs, lo, i).tables + cs[i].tables
    ensures Gather(cs, lo, i + 1).images == Gather(cs, lo, i).images + cs[i].images
  {
  }

  /** `process_pdf_simple` once the file has opened: the anchor search, the
      spare-parts list, the page loop. */
  method ProcessPages(r: ProcessingResult, pages: seq<Page>, model: string)
    requires r.spareParts == [] && r.images == [] && r.tables == []
    modifies r
    ensures r.modelName == old(r.modelName) && r.status == old(r.status)
    ensures var o := Reported(pages, model);
      r.spareParts == o.spareParts && r.images == o.images && r.tables == o.tables
  {
    var anchor := FindSparePartsPage(pages);
    match anchor {
      case None =>
      case Some(a) =>
        var entries := ExtractSpareParts(pages[a].text.value, model);
        r.spareParts := entries;
        ghost var cs := Contributions(pages, model);
        WalkPages(r, pages, a + 1, model, cs);
    }
  }

  /** `process_pdf_simple`. */
  method ProcessPdf(stem: string, src: Source) returns (r: ProcessingResult?)
    ensures r == null <==> src.Missing?
    ensures r != null ==> fresh(r) && Expected(stem, src) == Some(r.Snapshot())
  {
    if src.Missing? {
      return null;
    }
    var model := ModelName.ModelName(stem);
    r := new ProcessingResult(model);
    match src {
      case Unopenable =>
        r.status := Failed;
      case Opened(pages) =>
        ProcessPages(r, pages, model);
        r.status := Success;
    }
  }

  // ---------------------------------------------------------------------
  // Properties

  /** Tables of one model numbered in `lo + 1..hi`, in strictly
      increasing order, at most one per page. */
  predicate TablesWithin(ts: seq<Table>, model: string, lo: nat, hi: nat) {
    |ts| <= hi - lo &&
    (forall k | 0 <= k < |ts| :: lo < ts[k].page <= hi && ts[k].model == model) &&
    (forall k, l | 0 <= k < l < |ts| :: ts[k].page < ts[l].page)
  }

  /** What a page may add to the tables: nothing, or one table carrying
      the page's number and the model. */
  predicate OnePageTable(d: seq<Table>, index: nat, model: string) {
    d == [] || (|d| == 1 && d[0].page == DisplayPage(index) && d[0].model == model)
  }

  /** A page adds at most one table, carrying its number and the model. */
  lemma PageTable(page: Page, index: nat, model: string)
    ensures OnePageTable(PageContribution(page, index, model).tables, index, model)
  {
    PageContributionShape(page, index, model);
  }

  lemma AppendPageTable(prev: seq<Table>, d: seq<Table>, model: string, lo: nat, index: nat)
    requires lo <= index && TablesWithin(prev, model, lo, index)
    requires OnePageTable(d, index, model)
    ensures TablesWithin(prev + d, model, lo, index + 1)
  {
    if d != [] {
      var ts := prev + d;
      assert ts[|prev|] == d[0];
      assert forall k | 0 <= k < |prev| :: ts[k] == prev[k];
    } else {
      assert prev + d == prev;
    }
  }

  /** Gathering contributions that each add at most one table of their own
      page gives tables numbered within the range, in increasing order. */
  lemma {:induction false} GatherTablePages(cs: seq<Contribution>, lo: nat, hi: nat, model: string)
    requires lo <= hi <= |cs|
    requires forall j | lo <= j < hi :: OnePageTable(cs[j].tables, j, model)
    ensures TablesWithin(Gather(cs, lo, hi).tables, model, lo, hi)
    decreases hi - lo
  {
    if hi > lo {
      GatherTablePages(cs, lo, hi - 1, model);
      AppendPageTable(Gather(cs, lo, hi - 1).tables, cs[hi - 1].tables, model, lo, hi - 1);
    }
  }

  /** At most one table per page, numbered within the walked range, in
      strictly increasing page order. */
  lemma WalkTablePages(pages: seq<Page>, lo: nat, hi: nat, model: string)
    requires lo <= hi <= |pages|
    ensures TablesWithin(Walk(pages, lo, hi, model).tables, model, lo, hi)
  {
    var cs := Contributions(pages, model);
    forall j | lo <= j < hi ensures OnePageTable(cs[j].tables, j, model) {
      PageTable(pages[j], j, model);
    }
    GatherTablePages(cs, lo, hi, model);
  }

  /** No element occurs twice. */
  predicate Distinct(ns: seq<string>) {
    forall k, l | 0 <= k < l < |ns| :: ns[k] != ns[l]
  }

  lemma DistinctConcat(xs: seq<string>, ys: seq<string>)
    requires Distinct(xs) && Distinct(ys)
    requires forall k, l | 0 <= k < |xs| && 0 <= l < |ys| :: xs[k] != ys[l]
    ensures Distinct(xs + ys)
  {
    var ns := xs + ys;
    forall k, l | 0 <= k < l < |ns| ensures ns[k] != ns[l] {
      if l < |xs| {
        assert ns[k] == xs[k] && ns[l] == xs[l];
      } else if k < |xs| {
        assert ns[k] == xs[k] && ns[l] == ys[l - |xs|];
      } else {
        assert ns[k] == ys[k - |xs|] && ns[l] == ys[l - |xs|];
      }
    }
  }

  /** Every name carries a page number in `lo + 1..hi`. */
  predicate PagesWithin(ns: seq<string>, model: string, lo: nat, hi: nat) {
    forall k | 0 <= k < |ns| :: lo < NamedPage(ns[k], model) <= hi
  }

  /** Names of pages up to number `index` followed by distinct names of the
      next page are all distinct and carry page numbers up to `index + 1`. */
  lemma AppendPageNames(prev: seq<string>, d: seq<string>, model: string, lo: nat, index: nat)
    requires lo <= index && PagesWithin(prev, model, lo, index)
    requires OnePageNames(d, index, model) && Distinct(prev)
    ensures PagesWithin(prev + d, model, lo, index + 1)
    ensures Distinct(prev + d)
  {
    forall k, l | 0 <= k < |prev| && 0 <= l < |d| ensures prev[k] != d[l] {
      assert NamedPage(prev[k], model) <= index < NamedPage(d[l], model);
    }
    DistinctConcat(prev, d);
  }

  /** What a page may add to the images: names carrying the page's number,
      none of them twice. */
  predicate OnePageNames(d: seq<string>, index: nat, model: string) {
    (forall k | 0 <= k < |d| :: NamedPage(d[k], model) == DisplayPage(index)) && Distinct(d)
  }

  /** The images page `index` contributes carry its page number and are
      distinct. */
  lemma PageImageNames(page: Page, index: nat, model: string)
    ensures OnePageNames(PageContribution(page, index, model).images, index, model)
  {
    ImageRefsPage(page, model, index);
    ImageRefsDistinct(page, model, index);
  }

  /** Gathering contributions whose names each carry their own page's
      number gives names within the range, none of them twice. */
  lemma {:induction false} GatherImageNames(cs: seq<Contribution>, lo: nat, hi: nat, model: string)
    requires lo <= hi <= |cs|
    requires forall j | lo <= j < hi :: OnePageNames(cs[j].images, j, model)
    ensures PagesWithin(Gather(cs, lo, hi).images, model, lo, hi)
    ensures Distinct(Gather(cs, lo, hi).images)
    decreases hi - lo
  {
    if hi > lo {
      GatherImageNames(cs, lo, hi - 1, model);
      AppendPageNames(Gather(cs, lo, hi - 1).images, cs[hi - 1].images, model, lo, hi - 1);
    }
  }

  /** Every image name of the walk carries a page number within the walked
      range, and no name occurs twice. */
  lemma WalkImageNames(pages: seq<Page>, lo: nat, hi: nat, model: string)
    requires lo <= hi <= |pages|
    ensures PagesWithin(Walk(pages, lo, hi, model).images, model, lo, hi)
    ensures Distinct(Walk(pages, lo, hi, model).images)
  {
    var cs := Contributions(pages, model);
    forall j | lo <= j < hi ensures OnePageNames(cs[j].images, j, model) {
      PageImageNames(pages[j], j, model);
    }
    GatherImageNames(cs, lo, hi, model);
  }

  /** Everything a successful run reports beyond the spare-parts list comes
      from pages after the anchor page: tables are numbered after it in
      increasing order, image names carry page numbers after it and are
      all different. Without an anchor page nothing is reported. */
  lemma OutputsFollowAnchor(stem: string, pages: seq<Page>)
    ensures var o := Expected(stem, Opened(pages)).value;
      match FirstAnchor(pages)
      case None => o.spareParts == [] && o.tables == [] && o.images == []
      case Some(a) =>
        TablesWithin(o.tables, o.modelName, DisplayPage(a), |pages|) &&
        PagesWithin(o.images, o.modelName, DisplayPage(a), |pages|) &&
        Distinct(o.images)
  {
    match FirstAnchor(pages)
    case None =>
    case Some(a) =>
      WalkTablePages(pages, a + 1, |pages|, ModelName.ModelName(stem));
      WalkImageNames(pages, a + 1, |pages|, ModelName.ModelName(stem));
  }
}
