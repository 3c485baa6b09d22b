/**
  The upload page of app/page.jsx as a state machine: the drag highlight, the
  list of previews, and the browser's object-URL handles.

  The page reacts to the drop zone's dragover, dragleave and drop events, to
  the hidden file input's change event, to a click on "Choose files", and to a
  preview image finishing loading, which revokes that preview's URL. A file
  list arrives as an optional sequence: None stands for an event that carries
  no list at all. The browser mints handles in order, so `nextUrl` is the
  handle the next object URL gets.

  `Step` and `Run` are the page as written, whose addFiles never revokes the
  handle of a skipped duplicate. `StepFixed` and `RunFixed` are the same page
  running the corrected addFiles, which revokes those handles at once.
 */
module Uploader {
  import opened Options
  import opened Intake
  import opened Bytes

  datatype Page = Page(dragging: bool, entries: seq<Entry>, nextUrl: nat, revoked: set<nat>)

  /** The page as it first renders: no highlight, no previews, no handles. */
  const Initial := Page(false, [], 0, {})

  datatype Event =
    | DragOver
      /** `inside` holds when the pointer moved to an element inside the drop zone. */
    | DragLeave(inside: bool)
    | Drop(dropped: Option<seq<File>>)
    | PickerChange(picked: Option<seq<File>>)
    | OpenPicker
      /** The preview at this position finished loading. */
    | PreviewLoaded(index: nat)

  /** addFiles as written run on the page: previews are appended, one handle
      is minted per accepted file, and nothing is revoked. */
  function Add(p: Page, batch: seq<File>): (q: Page)
    ensures p.entries <= q.entries && q.nextUrl == p.nextUrl + |Accepted(batch)|
    ensures q.revoked == p.revoked && q.dragging == p.dragging
  {
    var r := AddFilesAsWritten(p.entries, batch, p.nextUrl);
    Page(p.dragging, r.entries, r.nextUrl, p.revoked)
  }

  /** Passes a file list on to addFiles only when there is one and it is not empty. */
  function Forward(p: Page, files: Option<seq<File>>): Page {
    match files
    case Some(batch) => if |batch| > 0 then Add(p, batch) else p
    case None => p
  }

  function Step(p: Page, e: Event): (q: Page)
    ensures p.entries <= q.entries && p.nextUrl <= q.nextUrl && p.revoked <= q.revoked
  {
    match e
    case DragOver => if !p.dragging then p.(dragging := true) else p
    case DragLeave(inside) => if inside then p else p.(dragging := false)
    case Drop(files) => Forward(p.(dragging := false), files)
    case PickerChange(files) => Forward(p, files)
    case OpenPicker => p
    case PreviewLoaded(k) => if k < |p.entries| then p.(revoked := p.revoked + {p.entries[k].url}) else p
  }

  /** The page after a sequence of events, applied first to last. */
  function Run(p: Page, events: seq<Event>): (q: Page)
    ensures p.entries <= q.entries && p.nextUrl <= q.nextUrl && p.revoked <= q.revoked
    decreases |events|
  {
    if events == [] then p else Step(Run(p, events[..|events| - 1]), events[|events| - 1])
  }

  // ---------------------------------------------------------------------------
  // The drag highlight

  /** Events that switch the highlight off: a drop, or leaving the zone for an element outside it. */
  predicate Clears(e: Event) {
    e.Drop? || (e.DragLeave? && !e.inside)
  }

  /** Only drag events touch the highlight: dragover sets it, a drop or a
      leave to the outside clears it, and nothing else changes it. Dragover,
      dragleave and the "Choose files" click change nothing else. */
  lemma StepHighlight(p: Page, e: Event)
    ensures Step(p, e).dragging <==> e.DragOver? || (p.dragging && !Clears(e))
    ensures e.DragOver? || e.DragLeave? || e.OpenPicker? ==>
      Step(p, e) == p.(dragging := Step(p, e).dragging)
  {
  }

  /** A second dragover changes nothing: the guard on the flag only saves a re-render. */
  lemma DragOverIdempotent(p: Page)
    ensures Step(Step(p, DragOver), DragOver) == Step(p, DragOver)
    ensures p.dragging ==> Step(p, DragOver) == p
  {
  }

  /** The highlight as the event history determines it: some dragover has
      not been followed by a clearing event, or the highlight was on at the
      start and no clearing event happened. */
  predicate LeftOn(start: bool, events: seq<Event>) {
    || (exists i :: 0 <= i < |events| && events[i].DragOver? && forall j :: i < j < |events| ==> !Clears(events[j]))
    || (start && forall j :: 0 <= j < |events| ==> !Clears(events[j]))
  }

  lemma LeftOnAfterDragOver(start: bool, events: seq<Event>)
    requires |events| > 0 && events[|events| - 1].DragOver?
    ensures LeftOn(start, events)
  {
    var n := |events| - 1;
    assert forall j :: n < j < |events| ==> !Clears(events[j]);
  }

  lemma LeftOnAfterClear(start: bool, events: seq<Event>)
    requires |events| > 0 && Clears(events[|events| - 1])
    ensures !LeftOn(start, events)
  {
    var n := |events| - 1;
    forall i | 0 <= i < |events| && events[i].DragOver?
      ensures exists j :: i < j < |events| && Clears(events[j])
    {
      assert i < n && Clears(events[n]);
    }
  }

  lemma LeftOnAfterOther(start: bool, events: seq<Event>)
    requires |events| > 0 && !events[|events| - 1].DragOver? && !Clears(events[|events| - 1])
    ensures LeftOn(start, events) == LeftOn(start, events[..|events| - 1])
  {
    var n := |events| - 1;
    var prefix := events[..n];
    assert forall j :: 0 <= j < n ==> prefix[j] == events[j];
    if i :| 0 <= i < |events| && events[i].DragOver? && forall j :: i < j < |events| ==> !Clears(events[j]) {
      assert i < n && prefix[i].DragOver? && forall j :: i < j < n ==> !Clears(prefix[j]);
    }
    if i :| 0 <= i < n && prefix[i].DragOver? && forall j :: i < j < n ==> !Clears(prefix[j]) {
      assert events[i].DragOver? && forall j :: i < j < |events| ==> !Clears(events[j]);
    }
  }

  /** After any sequence of events the highlight is what the history says. */
  lemma {:induction false} RunHighlight(p: Page, events: seq<Event>)
    ensures Run(p, events).dragging == LeftOn(p.dragging, events)
    decreases |events|
  {
    if events != [] {
      var n := |events| - 1;
      RunHighlight(p, events[..n]);
      StepHighlight(Run(p, events[..n]), events[n]);
      if events[n].DragOver? {
        LeftOnAfterDragOver(p.dragging, events);
      } else if Clears(events[n]) {
        LeftOnAfterClear(p.dragging, events);
      } else {
        LeftOnAfterOther(p.dragging, events);
      }
    }
  }

  // ---------------------------------------------------------------------------
  // File lists

  /** A drop does what a picker change does, and also clears the highlight;
      a missing list and an empty list both leave the page alone apart from
      the highlight; a non-empty list goes to addFiles whole. */
  lemma FileEvents(p: Page, files: Option<seq<File>>)
    ensures Step(p, Drop(files)) == Step(p, PickerChange(files)).(dragging := false)
    ensures Step(p, PickerChange(files)).dragging == p.dragging
    ensures files == None || files == Some([]) ==> Step(p, PickerChange(files)) == p
    ensures files.Some? && |files.value| > 0 ==>
      var r := AddFilesAsWritten(p.entries, files.value, p.nextUrl);
      var q := Step(p, PickerChange(files));
      q.entries == r.entries && q.nextUrl == r.nextUrl && q.revoked == p.revoked
  {
  }

  /** A list with no file of an accepted type adds nothing and mints no handle. */
  lemma RejectedBatch(p: Page, batch: seq<File>)
    requires forall f :: f in batch ==> !IsAccepted(f)
    ensures Step(p, PickerChange(Some(batch))) == p
    ensures Step(p, Drop(Some(batch))) == p.(dragging := false)
  {
    AddFilesFilters(p.entries, batch, p.nextUrl);
  }

  /** Adding files only ever appends: every preview stays where it was. */
  lemma {:induction false} RunKeepsPreviews(p: Page, events: seq<Event>, k: nat)
    requires k < |p.entries|
    ensures k < |Run(p, events).entries| && Run(p, events).entries[k] == p.entries[k]
  {
    assert p.entries <= Run(p, events).entries;
  }

  // ---------------------------------------------------------------------------
  // The page invariant

  /** What holds of every page the events can reach: keys are distinct; every
      preview is of an accepted type and keyed by its file; every handle an
      entry holds or the page revoked was minted, and no two entries hold the
      same one. */
  predicate Good(p: Page) {
    && DistinctIds(p.entries)
    && DistinctUrls(p.entries)
    && (forall e :: e in p.entries ==> IsAccepted(e.file) && e.id == Id(e.file))
    && (forall e :: e in p.entries ==> e.url < p.nextUrl)
    && (forall h :: h in p.revoked ==> h < p.nextUrl)
  }

  lemma InitialGood()
    ensures Good(Initial)
  {
  }

  lemma {:induction false} AddKeepsGood(p: Page, batch: seq<File>)
    requires Good(p)
    ensures Good(Add(p, batch))
  {
    var base := p.nextUrl;
    var q := Add(p, batch);
    assert DistinctIds(q.entries) by {
      AddFilesIds(p.entries, batch, base);
    }
    assert DistinctUrls(q.entries) by {
      AddFilesKeepsUrlsDistinct(p.entries, batch, base);
    }
    assert forall e :: e in q.entries ==> e.url < q.nextUrl by {
      AddFilesHandlesBelow(p.entries, batch, base);
    }
    assert forall e :: e in q.entries ==> IsAccepted(e.file) && e.id == Id(e.file) by {
      AddKeepsKeyed(p, batch);
    }
  }

  lemma AddKeepsKeyed(p: Page, batch: seq<File>)
    requires forall e :: e in p.entries ==> IsAccepted(e.file) && e.id == Id(e.file)
    ensures forall e :: e in Add(p, batch).entries ==> IsAccepted(e.file) && e.id == Id(e.file)
  {
    var q := Add(p, batch);
    AddFilesFilters(p.entries, batch, p.nextUrl);
    forall e | e in q.entries
      ensures IsAccepted(e.file) && e.id == Id(e.file)
    {
      var k :| 0 <= k < |q.entries| && q.entries[k] == e;
      if k < |p.entries| {
        assert e == p.entries[k];
        assert e in p.entries;
      }
    }
  }

  lemma StepKeepsGood(p: Page, e: Event)
    requires Good(p)
    ensures Good(Step(p, e))
  {
    match e
    case Drop(Some(batch)) =>
      if |batch| > 0 {
        AddKeepsGood(p.(dragging := false), batch);
      }
    case PickerChange(Some(batch)) =>
      if |batch| > 0 {
        AddKeepsGood(p, batch);
      }
    case _ =>
  }

  lemma {:induction false} RunKeepsGood(p: Page, events: seq<Event>)
    requires Good(p)
    ensures Good(Run(p, events))
    decreases |events|
  {
    if events != [] {
      RunKeepsGood(p, events[..|events| - 1]);
      StepKeepsGood(Run(p, events[..|events| - 1]), events[|events| - 1]);
    }
  }

  /** A loaded preview revokes its own handle and no other entry's. */
  lemma PreviewRevokesOwnHandle(p: Page, k: nat)
    requires DistinctUrls(p.entries) && k < |p.entries|
    ensures var q := Step(p, PreviewLoaded(k));
      && q.entries == p.entries && q.nextUrl == p.nextUrl && q.dragging == p.dragging
      && q.revoked == p.revoked + {p.entries[k].url}
    ensures p.entries[k].url in Step(p, PreviewLoaded(k)).revoked
    ensures forall j :: 0 <= j < |p.entries| && j != k ==>
      (p.entries[j].url in Step(p, PreviewLoaded(k)).revoked <==> p.entries[j].url in p.revoked)
  {
    var q := Step(p, PreviewLoaded(k));
    assert q.revoked == p.revoked + {p.entries[k].url};
    forall j | 0 <= j < |p.entries| && j != k
      ensures p.entries[j].url != p.entries[k].url
    {
      if j < k {
        assert p.entries[j].url != p.entries[k].url;
      } else {
        assert p.entries[k].url != p.entries[j].url;
      }
    }
  }

  // ---------------------------------------------------------------------------
  // The page with the corrected addFiles

  /** The handles the corrected addFiles gives back on an event: those minted
      for files whose entry was skipped as a duplicate. */
  function Released(p: Page, e: Event): set<nat> {
    match e
    case Drop(Some(batch)) => if |batch| > 0 then AddFiles(p.entries, batch, p.nextUrl).released else {}
    case PickerChange(Some(batch)) => if |batch| > 0 then AddFiles(p.entries, batch, p.nextUrl).released else {}
    case _ => {}
  }

  /** One event on the corrected page: as written, and in the same update the
      handles of skipped duplicates are revoked. Only handles minted by this
      event are revoked on top of what the page as written revokes. */
  function StepFixed(p: Page, e: Event): (q: Page)
    ensures q.dragging == Step(p, e).dragging && q.entries == Step(p, e).entries
    ensures q.nextUrl == Step(p, e).nextUrl && Step(p, e).revoked <= q.revoked
    ensures forall h :: h in q.revoked && h !in Step(p, e).revoked ==> p.nextUrl <= h < q.nextUrl
  {
    var q := Step(p, e);
    q.(revoked := q.revoked + Released(p, e))
  }

  function RunFixed(p: Page, events: seq<Event>): (q: Page)
    ensures p.entries <= q.entries && p.nextUrl <= q.nextUrl && p.revoked <= q.revoked
    decreases |events|
  {
    if events == [] then p else StepFixed(RunFixed(p, events[..|events| - 1]), events[|events| - 1])
  }

  /** Both pages react to events alike except for the revoked set: the fix
      shows the same highlight and previews, and only ever revokes more. */
  lemma {:induction false} RunFixedAgrees(p: Page, events: seq<Event>)
    ensures RunFixed(p, events).dragging == Run(p, events).dragging
    ensures RunFixed(p, events).entries == Run(p, events).entries
    ensures RunFixed(p, events).nextUrl == Run(p, events).nextUrl
    ensures Run(p, events).revoked <= RunFixed(p, events).revoked
    decreases |events|
  {
    if events != [] {
      var n := |events| - 1;
      RunFixedAgrees(p, events[..n]);
      StepIgnoresRevoked(Run(p, events[..n]), RunFixed(p, events[..n]), events[n]);
    }
  }

  /** Steps do not read the revoked set. */
  lemma StepIgnoresRevoked(a: Page, b: Page, e: Event)
    requires a.dragging == b.dragging && a.entries == b.entries && a.nextUrl == b.nextUrl
    requires a.revoked <= b.revoked
    ensures Step(a, e).dragging == Step(b, e).dragging && Step(a, e).entries == Step(b, e).entries
    ensures Step(a, e).nextUrl == Step(b, e).nextUrl && Step(a, e).revoked <= Step(b, e).revoked
  {
  }

  /** The invariant of the corrected page: the page invariant, and every minted
      handle is held by a preview or has been revoked, so none leaks. */
  predicate Accounted(p: Page) {
    Good(p) && forall h: nat :: h < p.nextUrl ==> h in Urls(p.entries) || h in p.revoked
  }

  lemma PrefixUrls(a: seq<Entry>, b: seq<Entry>)
    requires a <= b
    ensures Urls(a) <= Urls(b)
  {
    forall h | h in Urls(a)
      ensures h in Urls(b)
    {
      var e :| e in a && e.url == h;
      var k :| 0 <= k < |a| && a[k] == e;
      assert b[k] == e;
    }
  }

  /** The empty starting page accounts for its (no) handles. */
  lemma InitialAccounted()
    ensures Accounted(Initial)
  {
  }

  lemma StepFixedKeepsAccounted(p: Page, e: Event)
    requires Accounted(p)
    ensures Accounted(StepFixed(p, e))
  {
    var q := StepFixed(p, e);
    StepKeepsGood(p, e);
    assert Good(q);
    PrefixUrls(p.entries, q.entries);
    match e
    case Drop(Some(batch)) =>
      if |batch| > 0 {
        FixedAddAccounts(p, batch);
      }
    case PickerChange(Some(batch)) =>
      if |batch| > 0 {
        FixedAddAccounts(p, batch);
      }
    case _ =>
  }

  /** The corrected addFiles accounts for every handle it mints. */
  lemma FixedAddAccounts(p: Page, batch: seq<File>)
    ensures var r := AddFiles(p.entries, batch, p.nextUrl);
      forall h: nat :: p.nextUrl <= h < r.nextUrl ==> h in Urls(r.entries) || h in r.released
  {
  }

  /** Every page the corrected page reaches accounts for every handle it minted. */
  lemma {:induction false} RunFixedAccountsForHandles(p: Page, events: seq<Event>)
    requires Accounted(p)
    ensures Accounted(RunFixed(p, events))
    decreases |events|
  {
    if events != [] {
      RunFixedAccountsForHandles(p, events[..|events| - 1]);
      StepFixedKeepsAccounted(RunFixed(p, events[..|events| - 1]), events[|events| - 1]);
    }
  }

  /** As written, dropping a file that is already listed mints a handle that no
      preview holds and that is never revoked, so the page stops accounting for
      its handles; the corrected page revokes that handle at once. */
  lemma RepeatedFileLeaks(p: Page, f: File)
    requires Good(p) && IsAccepted(f) && Id(f) in Ids(p.entries)
    ensures var q := Step(p, Drop(Some([f])));
      && q.entries == p.entries
      && q.nextUrl == p.nextUrl + 1
      && p.nextUrl !in Urls(q.entries)
      && p.nextUrl !in q.revoked
      && !Accounted(q)
    ensures p.nextUrl in StepFixed(p, Drop(Some([f]))).revoked
  {
    var q := Step(p, Drop(Some([f])));
    assert q == p.(dragging := false, nextUrl := p.nextUrl + 1) by {
      AddListedFile(p.(dragging := false), f);
    }
    assert p.nextUrl !in Urls(q.entries);
    assert p.nextUrl in Released(p, Drop(Some([f]))) by {
      assert AddFiles(p.entries, [f], p.nextUrl).entries == p.entries;
    }
  }

  /** As written, re-adding a listed file only moves the URL serial on. */
  lemma AddListedFile(p: Page, f: File)
    requires IsAccepted(f) && Id(f) in Ids(p.entries)
    ensures Add(p, [f]) == p.(nextUrl := p.nextUrl + 1)
  {
    var next := Tag(Accepted([f]), p.nextUrl);
    AcceptedSingle(f);
    assert next == [Entry(f, Id(f), p.nextUrl)];
    assert Ids(next) == {Id(f)};
    MergeAbsorbs(p.entries, next);
  }

  // ---------------------------------------------------------------------------
  // Preview cards

  /** The three lines under a preview: name, size text and type. */
  datatype Card = Card(name: string, size: string, kind: string)

  /** The size line reads back as the figure, decimals and unit formatBytes
      computed for the size, and the type line falls back to "unknown type". */
  function CardOf(e: Entry): (c: Card)
    ensures c.name == e.file.name
    ensures c.kind != "" && (e.file.mimeType != "" ==> c.kind == e.file.mimeType)
    ensures e.file.mimeType == "" ==> c.kind == "unknown type"
    ensures ReadSize(c.size) == Some(if e.file.size == 0 then Display(0, 0, 0) else Measure(e.file.size))
  {
    FormatBytesRoundTrip(e.file.size);
    Card(e.file.name, FormatBytes(e.file.size), if e.file.mimeType == "" then "unknown type" else e.file.mimeType)
  }

  /** On a reachable page every card shows an accepted type, never the
      fallback, its size text reads back as the figure, decimals and unit
      computed for the size, and the list keys React sees are distinct. */
  lemma GoodCards(p: Page, k: nat)
    requires DistinctIds(p.entries) && (forall e :: e in p.entries ==> IsAccepted(e.file))
    requires k < |p.entries|
    ensures CardOf(p.entries[k]).kind == p.entries[k].file.mimeType
    ensures CardOf(p.entries[k]).kind in AcceptedTypes && CardOf(p.entries[k]).kind != "unknown type"
    ensures ReadSize(CardOf(p.entries[k]).size)
      == Some(if p.entries[k].file.size == 0 then Display(0, 0, 0) else Measure(p.entries[k].file.size))
    ensures forall j :: 0 <= j < |p.entries| && j != k ==> p.entries[j].id != p.entries[k].id
  {
    var e := p.entries[k];
    assert IsAccepted(e.file) by {
      assert e in p.entries;
    }
    assert e.file.mimeType != "" && e.file.mimeType != "unknown type" by {
      AcceptedTypesNamed(e.file.mimeType);
    }
  }

  /** Every allowed type is a non-empty name other than the card's fallback text. */
  lemma AcceptedTypesNamed(t: string)
    requires t in AcceptedTypes
    ensures t != "" && t != "unknown type"
  {
  }

  // ---------------------------------------------------------------------------
  // A session

  const Photo := File("photo.png", 2048, 1700000000000, "image/png")

  /** Dragging a 2 KiB PNG over the zone and dropping it leaves one preview,
      reading "photo.png", "2.0 KB", "image/png", and the highlight off. */
  lemma DropPhoto()
    ensures var q := Run(Initial, [DragOver, Drop(Some([Photo]))]);
      && !q.dragging
      && |q.entries| == 1
      && CardOf(q.entries[0]) == Card("photo.png", "2.0 KB", "image/png")
      && q.nextUrl == 1 && q.revoked == {}
  {
    var events := [DragOver, Drop(Some([Photo]))];
    var over := Initial.(dragging := true);
    assert Run(Initial, [DragOver]) == over by {
      assert [DragOver][..0] == [];
    }
    assert Run(Initial, events) == Step(over, Drop(Some([Photo]))) by {
      assert events[..1] == [DragOver];
    }
    var entry := Entry(Photo, Id(Photo), 0);
    assert AddFilesAsWritten([], [Photo], 0) == AddResult([entry], 1, {}) by {
      assert Accepted([Photo]) == [Photo];
      assert Tag([Photo], 0) == [entry];
      assert Merge([], [entry]) == [entry];
    }
    assert Step(over, Drop(Some([Photo]))) == Page(false, [entry], 1, {});
    assert CardOf(entry) == Card("photo.png", "2.0 KB", "image/png") by {
      FormatBytes2048();
    }
  }
}
