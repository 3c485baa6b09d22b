/**
  The file-intake list of the uploader page (addFiles in app/page.jsx).

  A batch of candidate files is filtered against a fixed MIME allow-list, each
  survivor is given a key built from its name, size and modification time and
  a freshly minted preview URL, and the survivors are pushed, in batch order,
  onto the current list unless an entry with the same key is already there.
  Preview URLs are opaque: a handle is a serial number, and only identity
  matters.
 */
module Intake {
  import opened Decimal
  import opened Options

  /** A candidate file as the browser describes it; the blob itself is not modelled. */
  datatype File = File(name: string, size: nat, lastModified: int, mimeType: string)

  /** One accepted file: the file, its key, and the handle of its preview URL. */
  datatype Entry = Entry(file: File, id: string, url: nat)

  /** The three file attributes an entry key is built from. */
  datatype Key = Key(name: string, size: nat, lastModified: int)

  const AcceptedTypes: seq<string> :=
    ["image/jpeg", "image/png", "image/webp", "image/gif", "image/heic", "image/heif"]

  predicate IsAccepted(f: File) {
    f.mimeType in AcceptedTypes
  }

  function KeyOf(f: File): Key {
    Key(f.name, f.size, f.lastModified)
  }

  /** The entry key: name, size and modification time joined by dashes. */
  function Id(f: File): string {
    f.name + "-" + NatStr(f.size) + "-" + IntStr(f.lastModified)
  }

  // ---------------------------------------------------------------------------
  // Reading a key back

  /** The length of the run of digits at the end of `s`. */
  function TrailingDigits(s: string): (n: nat)
    ensures n <= |s|
    decreases |s|
  {
    if |s| == 0 || !IsDigit(s[|s| - 1]) then 0 else TrailingDigits(s[..|s| - 1]) + 1
  }

  /** Splits off a dash and the run of digits after it, reading the digits as a number. */
  function ParseTail(s: string): Option<(string, nat)> {
    var d := TrailingDigits(s);
    if d == 0 || d == |s| || s[|s| - d - 1] != '-' then None
    else Some((s[..|s| - d - 1], ParseNat(s[|s| - d..])))
  }

  /** Reads a key back: the modification time after the last dash (a second dash
      just before it is its minus sign), then the size after the dash before that;
      the name is what remains. */
  function ParseId(s: string): Option<Key> {
    match ParseTail(s)
    case None => None
    case Some((p, magnitude)) =>
      if |p| > 0 && p[|p| - 1] == '-' then ParseFront(p[..|p| - 1], -(magnitude as int))
      else ParseFront(p, magnitude)
  }

  function ParseFront(rest: string, lastModified: int): Option<Key> {
    match ParseTail(rest)
    case None => None
    case Some((name, size)) => Some(Key(name, size, lastModified))
  }

  lemma {:induction false} TrailingDigitsAfter(p: string, c: char, d: string)
    requires !IsDigit(c) && AllDigits(d)
    ensures TrailingDigits(p + [c] + d) == |d|
    decreases |d|
  {
    var s := p + [c] + d;
    if |d| > 0 {
      assert s[..|s| - 1] == p + [c] + d[..|d| - 1];
      TrailingDigitsAfter(p, c, d[..|d| - 1]);
    }
  }

  lemma ParseTailOf(p: string, d: string)
    requires |d| >= 1 && AllDigits(d)
    ensures ParseTail(p + "-" + d) == Some((p, ParseNat(d)))
  {
    var s := p + "-" + d;
    TrailingDigitsAfter(p, '-', d);
    assert s[|s| - |d|..] == d;
    assert s[..|s| - |d| - 1] == p;
  }

  lemma ParseIdNonNegative(rest: string, b: string, k: Key)
    requires Canonical(b)
    requires |rest| > 0 && rest[|rest| - 1] != '-'
    requires ParseFront(rest, ParseNat(b)) == Some(k)
    ensures ParseId(rest + "-" + b) == Some(k)
  {
    ParseTailOf(rest, b);
  }

  lemma ParseIdNegative(rest: string, b: string, k: Key)
    requires Canonical(b)
    requires ParseFront(rest, -(ParseNat(b) as int)) == Some(k)
    ensures ParseId(rest + "-" + "-" + b) == Some(k)
  {
    var p := rest + "-";
    assert ParseTail(rest + "-" + "-" + b) == Some((p, ParseNat(b))) by {
      assert rest + "-" + "-" + b == p + "-" + b;
      ParseTailOf(p, b);
    }
    assert |p| > 0 && p[|p| - 1] == '-';
    assert p[..|p| - 1] == rest;
  }

  /** Every key reads back as the name, size and modification time it was built from. */
  lemma IdRoundTrip(f: File)
    ensures ParseId(Id(f)) == Some(KeyOf(f))
  {
    var a := NatStr(f.size);
    var rest := f.name + "-" + a;
    assert ParseFront(rest, f.lastModified) == Some(KeyOf(f)) by {
      ParseTailOf(f.name, a);
      ParseNatStr(f.size);
    }
    if f.lastModified < 0 {
      var b := NatStr(-f.lastModified);
      assert Id(f) == rest + "-" + "-" + b;
      assert ParseNat(b) == -f.lastModified by {
        ParseNatStr(-f.lastModified);
      }
      ParseIdNegative(rest, b, KeyOf(f));
    } else {
      var b := NatStr(f.lastModified);
      assert Id(f) == rest + "-" + b;
      assert rest[|rest| - 1] == a[|a| - 1];
      assert ParseNat(b) == f.lastModified by {
        ParseNatStr(f.lastModified);
      }
      ParseIdNonNegative(rest, b, KeyOf(f));
    }
  }

  /** Two files get the same key exactly when name, size and modification time all agree. */
  lemma IdInjective(f: File, g: File)
    ensures Id(f) == Id(g) <==> KeyOf(f) == KeyOf(g)
  {
    if Id(f) == Id(g) {
      IdRoundTrip(f);
      IdRoundTrip(g);
    }
  }

  // ---------------------------------------------------------------------------
  // The merge of the state updater

  function Ids(entries: seq<Entry>): set<string> {
    set e | e in entries :: e.id
  }

  function Urls(entries: seq<Entry>): set<nat> {
    set e | e in entries :: e.url
  }

  predicate DistinctIds(entries: seq<Entry>) {
    forall i, j :: 0 <= i < j < |entries| ==> entries[i].id != entries[j].id
  }

  /** No two entries hold the same preview URL handle. */
  predicate DistinctUrls(entries: seq<Entry>) {
    forall i, j :: 0 <= i < j < |entries| ==> entries[i].url != entries[j].url
  }

  /** Each candidate entry is pushed onto the growing list unless an entry already
      there, one pushed earlier in the same pass included, has its id. */
  function Merge(current: seq<Entry>, next: seq<Entry>): (merged: seq<Entry>)
    ensures current <= merged
    ensures |merged| <= |current| + |next|
    decreases |next|
  {
    if next == [] then current
    else
      var item := next[0];
      var current' := if item.id in Ids(current) then current else current + [item];
      Merge(current', next[1..])
  }

  /** The position of the first entry with the given id. */
  function FirstIndex(entries: seq<Entry>, id: string): (i: nat)
    requires id in Ids(entries)
    ensures i < |entries| && entries[i].id == id
    ensures forall j :: 0 <= j < i ==> entries[j].id != id
  {
    if entries[0].id == id then 0
    else
      assert id in Ids(entries[1..]) by {
        var e :| e in entries && e.id == id;
        assert e != entries[0];
      }
      FirstIndex(entries[1..], id) + 1
  }

  /** The ids after a merge are those before it together with those of the batch. */
  lemma {:induction false} MergeIds(current: seq<Entry>, next: seq<Entry>)
    ensures Ids(Merge(current, next)) == Ids(current) + Ids(next)
    decreases |next|
  {
    if next != [] {
      var item := next[0];
      var current' := if item.id in Ids(current) then current else current + [item];
      assert Ids(current') == Ids(current) + {item.id};
      assert next == [item] + next[1..];
      assert Ids(next) == {item.id} + Ids(next[1..]);
      MergeIds(current', next[1..]);
    }
  }

  /** A list with pairwise-distinct ids keeps them distinct, whatever repeats the batch holds. */
  lemma {:induction false} MergeKeepsDistinct(current: seq<Entry>, next: seq<Entry>)
    requires DistinctIds(current)
    ensures DistinctIds(Merge(current, next))
    decreases |next|
  {
    if next != [] {
      var item := next[0];
      var current' := if item.id in Ids(current) then current else current + [item];
      if item.id !in Ids(current) {
        forall i | 0 <= i < |current|
          ensures current'[i].id != item.id
        {
          assert current[i] in current;
        }
      }
      MergeKeepsDistinct(current', next[1..]);
    }
  }

  /** Past the head of a batch, first positions shift by one. */
  lemma FirstIndexAfterHead(next: seq<Entry>, id: string)
    requires next != [] && id != next[0].id && id in Ids(next[1..])
    ensures id in Ids(next) && FirstIndex(next, id) == FirstIndex(next[1..], id) + 1
  {
    var e := next[1..][FirstIndex(next[1..], id)];
    assert e in next;
  }

  /** What a merge appends: entries whose id was absent, each the first entry of
      the batch with that id. */
  lemma {:induction false} MergeAppendsFirstOccurrences(current: seq<Entry>, next: seq<Entry>)
    ensures var merged := Merge(current, next);
      forall k :: |current| <= k < |merged| ==>
        && merged[k].id !in Ids(current)
        && merged[k].id in Ids(next)
        && merged[k] == next[FirstIndex(next, merged[k].id)]
    decreases |next|
  {
    if next != [] {
      var item := next[0];
      var rest := next[1..];
      var current' := if item.id in Ids(current) then current else current + [item];
      var merged := Merge(current, next);
      assert merged == Merge(current', rest);
      assert item.id in Ids(current') by {
        assert item in current' || item.id in Ids(current);
      }
      assert Ids(current) <= Ids(current');
      MergeAppendsFirstOccurrences(current', rest);
      forall k | |current| <= k < |merged|
        ensures merged[k].id !in Ids(current)
        ensures merged[k].id in Ids(next)
        ensures merged[k] == next[FirstIndex(next, merged[k].id)]
      {
        if k < |current'| {
          assert merged[k] == item;
          assert item in next;
        } else {
          var id := merged[k].id;
          assert |current'| <= k < |Merge(current', rest)|;
          assert Merge(current', rest)[k].id !in Ids(current');
          assert id in Ids(rest);
          FirstIndexAfterHead(next, id);
          assert next[FirstIndex(rest, id) + 1] == rest[FirstIndex(rest, id)];
        }
      }
    }
  }

  /** The appended entries come in the order their ids first occur in the batch. */
  lemma {:induction false} MergeAppendsInOrder(current: seq<Entry>, next: seq<Entry>)
    ensures forall k :: |current| <= k < |Merge(current, next)| ==> Merge(current, next)[k].id in Ids(next)
    ensures var merged := Merge(current, next);
      forall k1, k2 :: |current| <= k1 < k2 < |merged| ==>
        FirstIndex(next, merged[k1].id) < FirstIndex(next, merged[k2].id)
    decreases |next|
  {
    MergeAppendsFirstOccurrences(current, next);
    if next != [] {
      var item := next[0];
      var rest := next[1..];
      var current' := if item.id in Ids(current) then current else current + [item];
      var merged := Merge(current, next);
      assert merged == Merge(current', rest);
      assert item.id in Ids(current') by {
        assert item in current' || item.id in Ids(current);
      }
      MergeAppendsInOrder(current', rest);
      MergeAppendsFirstOccurrences(current', rest);
      forall k | |current'| <= k < |merged|
        ensures FirstIndex(next, merged[k].id) == FirstIndex(rest, merged[k].id) + 1
      {
        assert Merge(current', rest)[k].id !in Ids(current');
        assert Merge(current', rest)[k].id in Ids(rest);
        FirstIndexAfterHead(next, merged[k].id);
      }
      forall k1, k2 | |current| <= k1 < k2 < |merged|
        ensures FirstIndex(next, merged[k1].id) < FirstIndex(next, merged[k2].id)
      {
        if k1 < |current'| {
          assert merged[k1] == item;
          assert FirstIndex(next, item.id) == 0;
        } else {
          assert FirstIndex(rest, Merge(current', rest)[k1].id) < FirstIndex(rest, Merge(current', rest)[k2].id);
        }
      }
    }
  }

  /** A batch whose ids are all present already changes nothing. */
  lemma {:induction false} MergeAbsorbs(current: seq<Entry>, next: seq<Entry>)
    requires Ids(next) <= Ids(current)
    ensures Merge(current, next) == current
    decreases |next|
  {
    if next != [] {
      assert next[0] in next;
      assert Ids(next[1..]) <= Ids(next) by {
        forall e | e in next[1..] ensures e in next { }
      }
      MergeAbsorbs(current, next[1..]);
    }
  }

  /** Merging the same batch a second time leaves the list as the first merge left it. */
  lemma MergeIdempotent(current: seq<Entry>, next: seq<Entry>)
    ensures Merge(Merge(current, next), next) == Merge(current, next)
  {
    MergeIds(current, next);
    MergeAbsorbs(Merge(current, next), next);
  }

  /** Every entry a merge appends comes from the batch. */
  lemma MergeAppendsFromBatch(current: seq<Entry>, next: seq<Entry>)
    ensures forall k :: |current| <= k < |Merge(current, next)| ==> Merge(current, next)[k] in next
  {
    MergeAppendsFirstOccurrences(current, next);
  }

  // ---------------------------------------------------------------------------
  // addFiles

  /** The MIME filter: the batch files whose declared type is on the allow-list, in batch order. */
  function Accepted(batch: seq<File>): (kept: seq<File>)
    ensures forall f :: f in kept <==> f in batch && IsAccepted(f)
    ensures |kept| <= |batch|
  {
    if batch == [] then []
    else
      assert batch == [batch[0]] + batch[1..];
      (if IsAccepted(batch[0]) then [batch[0]] else []) + Accepted(batch[1..])
  }

  /** The filter keeps batch order: filtering a concatenation filters each part
      and concatenates the results. */
  lemma {:induction false} AcceptedAppend(a: seq<File>, b: seq<File>)
    ensures Accepted(a + b) == Accepted(a) + Accepted(b)
    decreases |a|
  {
    if a == [] {
      assert a + b == b;
    } else {
      var head := if IsAccepted(a[0]) then [a[0]] else [];
      var ab := a + b;
      assert ab != [] && ab[0] == a[0] && ab[1..] == a[1..] + b;
      assert Accepted(ab) == head + Accepted(a[1..] + b);
      AcceptedAppend(a[1..], b);
      assert Accepted(a) == head + Accepted(a[1..]);
    }
  }

  /** A single file survives the filter exactly when its type is accepted. */
  lemma AcceptedSingle(f: File)
    ensures Accepted([f]) == if IsAccepted(f) then [f] else []
  {
    assert [f][1..] == [];
  }

  /** Each survivor gets its key and a freshly minted preview URL, numbered from `base`. */
  function Tag(files: seq<File>, base: nat): seq<Entry> {
    seq(|files|, i requires 0 <= i < |files| => Entry(files[i], Id(files[i]), base + i))
  }

  /** What tagging yields: entries keyed by their own file, and the handles from `base` on. */
  lemma TagFacts(files: seq<File>, base: nat)
    ensures forall e :: e in Tag(files, base) ==> e.file in files && e.id == Id(e.file)
    ensures forall h :: h in Urls(Tag(files, base)) <==> base <= h < base + |files|
    ensures Ids(Tag(files, base)) == set f | f in files :: Id(f)
  {
    var next := Tag(files, base);
    forall h | base <= h < base + |files|
      ensures h in Urls(next)
    {
      assert next[h - base] in next;
    }
    forall f | f in files
      ensures Id(f) in Ids(next)
    {
      var i :| 0 <= i < |files| && files[i] == f;
      assert next[i] in next;
    }
  }

  /** The list after one call, the next unused URL serial, and the URL handles
      given back to the browser during the call. */
  datatype AddResult = AddResult(entries: seq<Entry>, nextUrl: nat, released: set<nat>)

  /** addFiles as written: a URL is minted for every accepted file before the
      duplicate check, and a handle whose entry is then skipped is dropped without
      being revoked. */
  function AddFilesAsWritten(current: seq<Entry>, batch: seq<File>, base: nat): (r: AddResult)
    ensures current <= r.entries
    ensures r.nextUrl == base + |Accepted(batch)|
    ensures r.released == {}
  {
    var next := Tag(Accepted(batch), base);
    AddResult(Merge(current, next), base + |next|, {})
  }

  /** addFiles with the handles of skipped duplicates revoked in the same call.
      It leaves the list the code as written leaves, and every handle it mints
      is either held by an entry of the new list or released in that call,
      never both; nothing else is released. */
  function AddFiles(current: seq<Entry>, batch: seq<File>, base: nat): (r: AddResult)
    ensures r.entries == AddFilesAsWritten(current, batch, base).entries
    ensures r.nextUrl == AddFilesAsWritten(current, batch, base).nextUrl
    ensures forall h :: base <= h < r.nextUrl ==> (h in Urls(r.entries) <==> h !in r.released)
    ensures forall h :: h in r.released ==> base <= h < r.nextUrl
  {
    var next := Tag(Accepted(batch), base);
    var merged := Merge(current, next);
    TagFacts(Accepted(batch), base);
    AddResult(merged, base + |next|, Urls(next) - Urls(merged))
  }

  /** A batch entry whose key is already listed, or already carried by an
      earlier batch entry, is never the one a merge appends for that key. */
  lemma MergeSkipsRepeat(current: seq<Entry>, next: seq<Entry>, i: nat)
    requires i < |next|
    requires next[i].id in Ids(current) || exists j :: 0 <= j < i && next[j].id == next[i].id
    ensures forall k :: |current| <= k < |Merge(current, next)| ==>
      Merge(current, next)[k].id in Ids(next) && FirstIndex(next, Merge(current, next)[k].id) != i
  {
    var merged := Merge(current, next);
    MergeAppendsFirstOccurrences(current, next);
    forall k | |current| <= k < |merged|
      ensures merged[k].id in Ids(next) && FirstIndex(next, merged[k].id) != i
    {
      var id := merged[k].id;
      assert Merge(current, next)[k].id in Ids(next);
      if FirstIndex(next, id) == i {
        assert false;
      }
    }
  }

  /** As written, a handle minted for an accepted file whose key is already
      listed, or that an earlier file of the same batch already carries, is
      held by no entry of the new list, and the call revokes nothing. */
  lemma {:induction false} AddFilesAsWrittenLeaks(current: seq<Entry>, batch: seq<File>, base: nat, i: nat)
    requires i < |Accepted(batch)|
    requires forall e :: e in current ==> e.url < base
    requires Id(Accepted(batch)[i]) in Ids(current)
      || exists j :: 0 <= j < i && Id(Accepted(batch)[j]) == Id(Accepted(batch)[i])
    ensures var r := AddFilesAsWritten(current, batch, base);
      && base + i < r.nextUrl
      && base + i !in Urls(r.entries)
      && r.released == {}
  {
    var files := Accepted(batch);
    var next := Tag(files, base);
    var merged := Merge(current, next);
    assert next[i].id == Id(files[i]);
    assert next[i].id in Ids(current) || exists j :: 0 <= j < i && next[j].id == next[i].id by {
      if j :| 0 <= j < i && Id(files[j]) == Id(files[i]) {
        assert next[j].id == Id(files[j]);
      }
    }
    MergeSkipsRepeat(current, next, i);
    MergeAppendsFirstOccurrences(current, next);
    forall e | e in merged
      ensures e.url != base + i
    {
      var k :| 0 <= k < |merged| && merged[k] == e;
      if k < |current| {
        assert e == current[k];
        assert e in current;
      } else {
        assert Merge(current, next)[k] == next[FirstIndex(next, Merge(current, next)[k].id)];
        assert FirstIndex(next, Merge(current, next)[k].id) != i;
      }
    }
  }

  /** Every handle held after a call was minted before the call's `nextUrl`. */
  lemma {:induction false} AddFilesHandlesBelow(current: seq<Entry>, batch: seq<File>, base: nat)
    requires forall e :: e in current ==> e.url < base
    ensures var r := AddFilesAsWritten(current, batch, base);
      forall e :: e in r.entries ==> e.url < r.nextUrl
  {
    var next := Tag(Accepted(batch), base);
    var r := AddFilesAsWritten(current, batch, base);
    MergeAppendsFromBatch(current, next);
    TagFacts(Accepted(batch), base);
    forall e | e in r.entries
      ensures e.url < r.nextUrl
    {
      var k :| 0 <= k < |r.entries| && r.entries[k] == e;
      if k < |current| {
        assert e in current;
      } else {
        assert e.url in Urls(next);
      }
    }
  }

  /** Files whose type is not on the allow-list never enter the list: appended
      entries are accepted and keyed by their file, and a batch with no accepted
      file changes nothing. */
  lemma {:induction false} AddFilesFilters(current: seq<Entry>, batch: seq<File>, base: nat)
    ensures var r := AddFilesAsWritten(current, batch, base);
      forall k :: |current| <= k < |r.entries| ==>
        IsAccepted(r.entries[k].file) && r.entries[k].id == Id(r.entries[k].file)
    ensures (forall f :: f in batch ==> !IsAccepted(f)) ==>
      AddFilesAsWritten(current, batch, base) == AddResult(current, base, {})
  {
    var next := Tag(Accepted(batch), base);
    var r := AddFilesAsWritten(current, batch, base);
    MergeAppendsFromBatch(current, next);
    TagFacts(Accepted(batch), base);
    forall k | |current| <= k < |r.entries|
      ensures IsAccepted(r.entries[k].file) && r.entries[k].id == Id(r.entries[k].file)
    {
      assert r.entries[k] in next;
      assert r.entries[k].file in Accepted(batch);
    }
    if forall f :: f in batch ==> !IsAccepted(f) {
      assert Accepted(batch) == [];
    }
  }

  /** The keys after a call are the keys before it together with those of the
      accepted batch files, and distinct keys stay distinct. */
  lemma {:induction false} AddFilesIds(current: seq<Entry>, batch: seq<File>, base: nat)
    ensures Ids(AddFilesAsWritten(current, batch, base).entries)
      == Ids(current) + (set f | f in batch && IsAccepted(f) :: Id(f))
    ensures DistinctIds(current) ==> DistinctIds(AddFilesAsWritten(current, batch, base).entries)
  {
    var next := Tag(Accepted(batch), base);
    MergeIds(current, next);
    TagFacts(Accepted(batch), base);
    assert (set f | f in Accepted(batch) :: Id(f)) == (set f | f in batch && IsAccepted(f) :: Id(f));
    if DistinctIds(current) {
      MergeKeepsDistinct(current, next);
    }
  }

  /** Adding the same batch a second time leaves the list unchanged. As written,
      none of the handles the second call mints is held by an entry, so all of
      them leak; the fix releases exactly those. */
  lemma {:induction false} AddFilesIdempotent(current: seq<Entry>, batch: seq<File>, base: nat, base': nat)
    requires forall e :: e in current ==> e.url < base
    requires base + |Accepted(batch)| <= base'
    ensures var first := AddFilesAsWritten(current, batch, base);
      var second := AddFilesAsWritten(first.entries, batch, base');
      && second.entries == first.entries
      && forall h :: base' <= h < second.nextUrl ==> h !in Urls(second.entries)
    ensures var first := AddFilesAsWritten(current, batch, base);
      var second := AddFiles(first.entries, batch, base');
      forall h :: h in second.released <==> base' <= h < second.nextUrl
  {
    var first := AddFilesAsWritten(current, batch, base);
    var next := Tag(Accepted(batch), base);
    var next' := Tag(Accepted(batch), base');
    TagFacts(Accepted(batch), base);
    TagFacts(Accepted(batch), base');
    MergeIds(current, next);
    assert Ids(next') <= Ids(first.entries);
    MergeAbsorbs(first.entries, next');
    AddFilesHandlesBelow(current, batch, base);
    assert forall h :: h in Urls(first.entries) ==> h < base';
  }

  /** Entries minted for one batch hold different handles. */
  lemma TagUrlsDistinct(files: seq<File>, base: nat)
    ensures forall d, e :: d in Tag(files, base) && e in Tag(files, base) && d.url == e.url ==> d == e
  {
  }

  /** Handles stay one per entry: the batch's handles are new, and two appended
      entries never share one because they never share a key. */
  lemma {:induction false} AddFilesKeepsUrlsDistinct(current: seq<Entry>, batch: seq<File>, base: nat)
    requires DistinctIds(current) && DistinctUrls(current)
    requires forall e :: e in current ==> e.url < base
    ensures DistinctUrls(AddFilesAsWritten(current, batch, base).entries)
  {
    var next := Tag(Accepted(batch), base);
    var merged := AddFilesAsWritten(current, batch, base).entries;
    MergeAppendsFromBatch(current, next);
    MergeKeepsDistinct(current, next);
    TagFacts(Accepted(batch), base);
    TagUrlsDistinct(Accepted(batch), base);
    forall i, j | 0 <= i < j < |merged|
      ensures merged[i].url != merged[j].url
    {
      if j < |current| {
        assert merged[i] == current[i] && merged[j] == current[j];
      } else if i < |current| {
        assert merged[i] in current;
        assert merged[j].url in Urls(next);
      } else {
        assert merged[i] in next && merged[j] in next;
        assert merged[i].id != merged[j].id;
      }
    }
  }
}
