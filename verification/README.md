# Image upload preview page — a Dafny model

The page in `app/page.jsx` lets a visitor drag image files onto a drop zone,
or pick them with a hidden file input. It keeps a list of previews, each with
the file's name, a human-readable size and its MIME type. Nothing is uploaded:
every preview is shown from an object URL the browser creates for the local
file. This project models the page's logic and proves what it promises.

- **`Intake`** (`intake.dfy`) models `addFiles`:
  - the MIME allow-list `ACCEPTED_TYPES`;
  - the entry key `name-size-lastModified`, built as the real string. It is
    proved injective by reading it back;
  - the minting of one preview URL per accepted file;
  - the duplicate-skipping merge that the state updater runs;
  - `AddFilesAsWritten`, the code as written, and `AddFiles`, the corrected
    version that revokes the URLs of skipped duplicates.
- **`Bytes`** (`format_bytes.dfy`) models `formatBytes`:
  - the unit exponent is the integer floor of the base-1024 logarithm, capped
    at GB;
  - the quotient is the exact rational bytes / 1024^unit;
  - the text is produced as `Number.prototype.toFixed` produces it (section
    21.1.3.3 of ECMA-262): the nearest value, with a tie going to the larger
    one;
  - a reader for the size text shows that the text reads back as the figure,
    decimals and unit that `Measure` computes. It does not read back as the
    byte count: 1536 and 1537 bytes both print "1.5 KB".
- **`Decimal`** (`decimal.dfy`) holds the decimal rendering of whole numbers
  that template literals perform, and its inverse.
- **`Uploader`** (`uploader.dfy`) models the page as a state machine:
  - the `dragging` flag;
  - the preview list;
  - the URL handles minted and revoked so far.

  The machine reacts to dragover, dragleave (inside or outside the zone),
  drop, the picker's change event, the "Choose files" click and a preview
  finishing loading.
- **`Options`** (`options.dfy`) is the optional value that the readers and
  file-carrying events use.

Object URLs are opaque in the model: a handle is the serial number of the URL,
in minting order.

The page machine `Uploader.Step` runs `addFiles` as written. That version
never revokes the URL of a skipped duplicate (see "## Findings").
`Uploader.StepFixed` is the same page running the corrected `Intake.AddFiles`.
Only on that corrected page does every minted handle stay accounted for.

## Model

| member | source | states |
|---|---|---|
| `Intake.Id` | app/page.jsx:63 | The entry key built from name, size and modification time, with whole numbers written out in decimal. Its contract is given by `Intake.IdRoundTrip` and `Intake.IdInjective`. |
| `Decimal.NatStr` | app/page.jsx:63 | A size written out in the key: canonical decimal digits, with a leading zero only for zero. `Decimal.ParseNatStr` reads it back. |
| `Decimal.IntStr` | app/page.jsx:63 | A modification time written out in the key: a minus sign before the digits of a negative time, canonical digits otherwise. `Intake.IdRoundTrip` reads the time's value back from the key. |
| `Intake.IsAccepted` | app/page.jsx:6-13 | A file passes exactly when its MIME type is one of the six listed. Its contract is given by `Intake.AcceptedSingle` and `Intake.Accepted`. |
| `Intake.IdRoundTrip` | app/page.jsx:63 | The entry key reads back as the exact name, size and modification time it was built from, even when the name itself contains dashes and digits. |
| `Intake.IdInjective` | app/page.jsx:63 | Two files get the same key exactly when their name, size and modification time all agree. |
| `Intake.Accepted` | app/page.jsx:54-60 | A file survives the filter exactly when it was in the batch and its type is one of the six allowed types. |
| `Intake.AcceptedAppend` | app/page.jsx:54-60 | The filter keeps batch order: filtering two parts one after the other gives the filtered parts one after the other. |
| `Intake.AcceptedSingle` | app/page.jsx:6-13 | A single file survives exactly when its MIME type is on the allow-list. |
| `Intake.Tag` | app/page.jsx:61-65 | Each survivor gets its key and the next URL serial. Its contract is given by `Intake.TagFacts` and `Intake.TagUrlsDistinct`. |
| `Intake.TagFacts` | app/page.jsx:61-65 | Every entry holds one of the survivors and that survivor's key. The batch's handles are exactly the next consecutive serials. The batch's keys are the survivors' keys. |
| `Intake.TagUrlsDistinct` | app/page.jsx:64 | No two entries minted for one batch share a URL handle. |
| `Intake.Merge` | app/page.jsx:67-75 | The current list is a prefix of the merged list, and the merge adds at most one entry per batch item. |
| `Intake.MergeIds` | app/page.jsx:67-75 | The keys after a merge are the keys before it together with the batch's keys. |
| `Intake.MergeKeepsDistinct` | app/page.jsx:69-73 | A list with pairwise-distinct keys keeps them distinct, even when the batch repeats a key. |
| `Intake.MergeAppendsFirstOccurrences` | app/page.jsx:69-73 | Every appended entry has a key that was absent from the current list, and it is the first entry of the batch with that key. |
| `Intake.MergeAppendsInOrder` | app/page.jsx:69-73 | Appended entries follow the order in which their keys first occur in the batch, so each new key is appended exactly once. |
| `Intake.MergeAbsorbs` | app/page.jsx:69-73 | A batch whose keys are all present already leaves the list unchanged. |
| `Intake.MergeIdempotent` | app/page.jsx:67-75 | Merging the same batch a second time leaves the list as the first merge left it. |
| `Intake.MergeAppendsFromBatch` | app/page.jsx:71 | Every appended entry comes from the batch. |
| `Intake.AddFilesAsWritten` | app/page.jsx:53-76 | addFiles as written: the current list stays a prefix, one URL is minted per accepted file, and nothing is revoked. Its list facts are in `Intake.AddFilesIds`, `Intake.AddFilesFilters`, `Intake.AddFilesIdempotent` and `Intake.AddFilesKeepsUrlsDistinct`. |
| `Intake.AddFiles` | app/page.jsx:61-75 | The corrected addFiles. Each handle minted in a call is either held by an entry of the new list or released in that call, never both. Nothing else is released. The list and the next serial are those of the code as written. |
| `Intake.MergeSkipsRepeat` | app/page.jsx:69-73 | A batch entry whose key is already listed, or carried by an earlier batch entry, is never the entry a merge appends. |
| `Intake.AddFilesAsWrittenLeaks` | app/page.jsx:61-75 | As written, the handle minted for an accepted file is held by no entry, and is not revoked, when that file's key is already listed or an earlier file of the same batch has the same key. |
| `Intake.AddFilesHandlesBelow` | app/page.jsx:64 | Every handle held after a call was minted before the call's next serial. |
| `Intake.AddFilesFilters` | app/page.jsx:54-60 | Appended entries are of accepted types and keyed by their own file; a batch with no accepted file changes nothing and mints nothing. |
| `Intake.AddFilesIds` | app/page.jsx:53-76 | The keys after a call are the old keys plus those of the accepted batch files, and distinct keys stay distinct. |
| `Intake.AddFilesIdempotent` | app/page.jsx:53-76 | Adding the same batch again leaves the list unchanged. As written, no entry holds any handle the second call minted, so every one of them leaks. The fix releases exactly those. |
| `Intake.AddFilesKeepsUrlsDistinct` | app/page.jsx:61-75 | No two entries ever hold the same URL handle. |
| `Bytes.Log1024` | app/page.jsx:20 | The exponent is the integer floor of the base-1024 logarithm: 1024^k <= n < 1024^(k+1). |
| `Bytes.Log1024Unique` | app/page.jsx:20 | That k is the only one with that bracket. |
| `Bytes.Exponent` | app/page.jsx:18-21 | The unit index lies within B..GB, 1024^unit <= bytes, and below GB the size is under the next power. |
| `Bytes.RoundHalfUp` | app/page.jsx:23 | The rounded figure is as close to the exact quotient as any integer, and at a tie it is the larger one. |
| `Bytes.Measure` | app/page.jsx:17-23 | The unit bracket; no decimals when the unit is B or the quotient is at least ten, exactly one otherwise; the shown figure is the quotient rounded with ties up. |
| `Bytes.MeasureUnit` | app/page.jsx:18-21 | A size is shown in GB exactly when it is at least 1024^3 bytes, however large it is. |
| `Bytes.MeasureBounds` | app/page.jsx:22-23 | The shown figure is at least 1 (1.0), below GB it is at most 1024 (rounding is not carried into the next unit), and plain bytes are shown as they are. |
| `Bytes.ToFixed` | app/page.jsx:23 | `toFixed` of an already-rounded figure. Its contract is given by `Bytes.ToFixedShape`, `Bytes.ReadToFixed` and `Bytes.ToFixedOneDecimal`. |
| `Bytes.ToFixedShape` | app/page.jsx:23 | With no decimals the text is canonical digits. Otherwise it is canonical digits with no redundant leading zero, a point, and exactly that many digits after it. Together with `Bytes.ReadToFixed` this leaves one text per figure and number of decimals. |
| `Bytes.ReadToFixed` | app/page.jsx:23 | The toFixed text reads back as the rounded figure and its number of decimals. |
| `Bytes.FormatBytes` | app/page.jsx:15-24 | The size text. Its contract is given by `Bytes.FormatBytesRoundTrip`, by `Bytes.ToFixedShape` for the figure before the unit, and by the examples below. |
| `Bytes.FormatBytesRoundTrip` | app/page.jsx:15-24 | The size text reads back as the figure, decimals and unit that Measure computes, and "0 B" reads back as zero. |
| `Bytes.ShowsAs` | app/page.jsx:15-24 | A size whose unit bracket and rounding are known is shown as that figure and unit. |
| `Bytes.ToFixedOneDecimal` | app/page.jsx:23 | A one-decimal figure below ten prints as digit, point, digit. |
| `Bytes.FormatBytesUnderKilobyte` | app/page.jsx:16-23 | A size from 1 to 1023 is shown as the exact count followed by " B". |
| `Bytes.FormatBytes0` | app/page.jsx:16 | Zero bytes is "0 B". |
| `Bytes.FormatBytes1023` | app/page.jsx:18-23 | 1023 bytes is "1023 B". |
| `Bytes.FormatBytes1024` | app/page.jsx:18-23 | 1024 bytes is "1.0 KB". |
| `Bytes.FormatBytes1280` | app/page.jsx:22-23 | 1280 bytes, exactly 1.25 KB, rounds up to "1.3 KB". |
| `Bytes.FormatBytes1536` | app/page.jsx:22-23 | 1536 bytes is "1.5 KB". |
| `Bytes.FormatBytes2048` | app/page.jsx:22-23 | 2048 bytes is "2.0 KB". |
| `Bytes.FormatBytes10240` | app/page.jsx:22-23 | 10240 bytes, a quotient of exactly ten, is "10 KB" with no decimal. |
| `Bytes.FormatBytes10752` | app/page.jsx:22-23 | 10752 bytes, exactly 10.5 KB, rounds up to "11 KB". |
| `Bytes.FormatBytes1048575` | app/page.jsx:18-23 | One byte short of a MiB is "1024 KB": rounding does not move the size to MB. |
| `Bytes.FormatBytes1048576` | app/page.jsx:18-23 | 1048576 bytes is "1.0 MB". |
| `Uploader.Add` | app/page.jsx:53-76 | addFiles as written, run on the page. Previews are only appended, one handle is minted per accepted file, nothing is revoked, and the highlight is left alone. |
| `Uploader.Forward` | app/page.jsx:82-84 | A file list goes to addFiles only when it is present and not empty, as the drop handler checks here and the picker checks at app/page.jsx:152. Its contract is given by `Uploader.FileEvents`. |
| `Uploader.Step` | app/page.jsx:78-102 | No event removes or reorders a preview, rewinds the URL serial or un-revokes a handle. |
| `Uploader.Run` | app/page.jsx:67-68 | The same holds across any sequence of events. |
| `Uploader.StepHighlight` | app/page.jsx:78-102 | Dragover sets the highlight; a drop or a leave to the outside clears it; a leave to an element inside the zone and every other event keep it. Dragover, dragleave and the "Choose files" click change nothing else. |
| `Uploader.DragOverIdempotent` | app/page.jsx:89-94 | A repeated dragover changes nothing. |
| `Uploader.RunHighlight` | app/page.jsx:78-102 | After any sequence of events, the highlight is on exactly when some dragover has not been followed by a drop or outside leave, or when it was on at the start and no such event came. |
| `Uploader.FileEvents` | app/page.jsx:78-87 | A drop does what a picker change (app/page.jsx:151-156) does and also clears the highlight. A missing or empty file list changes nothing else. A non-empty list goes to addFiles as written, whole, and nothing is revoked. |
| `Uploader.RejectedBatch` | app/page.jsx:54-60 | A drop or pick made only of files of other types adds nothing and mints nothing. |
| `Uploader.RunKeepsPreviews` | app/page.jsx:67-68 | A preview keeps its position and contents through any sequence of events. |
| `Uploader.InitialGood` | app/page.jsx:45-46 | The empty starting page satisfies the page invariant. |
| `Uploader.AddKeepsGood` | app/page.jsx:53-76 | Adding files preserves the page invariant. Keys stay distinct. Every preview is of an accepted type and keyed by its file. Held handles are distinct and already minted, and so are revoked ones. |
| `Uploader.StepKeepsGood` | app/page.jsx:78-102 | Every event preserves the page invariant. |
| `Uploader.RunKeepsGood` | app/page.jsx:53-102 | Every page reachable by any sequence of events satisfies the page invariant. |
| `Uploader.PreviewRevokesOwnHandle` | app/page.jsx:116 | A loaded preview revokes its own URL and no other preview's. The revoked set grows by exactly that handle. The list, the URL serial and the highlight stay as they were. |
| `Uploader.StepFixed` | app/page.jsx:61-75 | The corrected page does what the page as written does. On top of that it revokes only handles minted by the same event. |
| `Uploader.RunFixedAgrees` | app/page.jsx:53-102 | After any events, the corrected page shows the same highlight, previews and next serial as the page as written. It only ever revokes more. |
| `Uploader.InitialAccounted` | app/page.jsx:45-46 | The empty starting page accounts for every handle, so with `Uploader.RunFixedAccountsForHandles` every page the corrected page reaches from it does too. |
| `Uploader.RunFixedAccountsForHandles` | app/page.jsx:53-116 | On the corrected page, every reachable page keeps the page invariant, and every minted handle is held by a preview or has been revoked. |
| `Uploader.AddListedFile` | app/page.jsx:61-75 | As written, re-adding a listed file leaves the page as it was except that the URL serial moves on. |
| `Uploader.RepeatedFileLeaks` | app/page.jsx:61-75 | As written, dropping an already-listed file mints a handle that no preview holds and that is not revoked, so the page no longer accounts for its handles. The corrected page revokes that handle. |
| `Uploader.CardOf` | app/page.jsx:119-121 | A card shows the file's name. It shows the file's type, or "unknown type" when the type is empty. Its size line reads back as the figure, decimals and unit that formatBytes computes for the size. |
| `Uploader.GoodCards` | app/page.jsx:106-121 | On a page whose keys are distinct and whose previews are all of accepted types, every card shows an accepted type and never the fallback. Its size text reads back as the figure, decimals and unit that `Measure` computes for the size, not as the byte count: 1536 and 1537 bytes both read back as 1.5 KB. The preview keys React receives are distinct. |
| `Uploader.DropPhoto` | app/page.jsx:78-87 | Dragging a 2048-byte PNG over the zone and dropping it leaves one preview, reading "photo.png", "2.0 KB", "image/png", with the highlight off. |

## Left out

- The JSX markup, `next/image`, the static `infoBlocks` copy and the metadata in `app/layout.js` are left out. They are presentation only.
- The exponent computation `Math.floor(Math.log(bytes) / Math.log(1024))` is modelled by the integer floor logarithm. A floating-point ratio that falls just short of an integer at an exact power of 1024 would pick the smaller unit. That rounding behaviour of the floating-point logarithm is not modelled.
- `Bytes.Measure`: the quotient is exact for every size. JavaScript divides exactly only below 2^53 bytes, and it prints quotients of 10^21 or more in exponent notation. Neither limit is reachable for a file the page can hold.
- Non-numeric sizes are left out. `!bytes` also sends `NaN` and `undefined` to "0 B", but a browser `File` always has a non-negative integer size, so sizes are `nat`.
- `URL.createObjectURL` and `URL.revokeObjectURL` are foreign calls. Their handle is a serial number, and the blob behind it is not modelled.
- `inputRef.current?.click()` opens the browser's picker. The "Choose files" click is an event that changes nothing, and whatever the picker returns arrives as a later picker change.
- The picker's `event.target.value = ""` reset is left out. It is a DOM side effect that lets the same file be picked again, and it does not touch the page state.
- The `event.preventDefault()` calls are left out. They suppress browser default actions that the page state does not see.
- React's `useState`, `useCallback` and `useMemo` mechanics, updater batching and render timing are left out. Each handler is one atomic transition.
- `currentTarget.contains(relatedTarget)` on dragleave becomes the boolean `inside` of the event.

## Findings

| source | as written | input that shows it | evidently intended | confidence | as-written member | corrected member |
|---|---|---|---|---|---|---|
| app/page.jsx:61-75 | An object URL is created for every accepted file before the duplicate check. When that entry is then skipped, its URL is neither stored nor revoked, so it stays alive until the page unloads. | Drop `photo.png` once, then drop the same file again (same name, size and lastModified). The same happens for a batch that holds one file twice. | A skipped duplicate's URL is revoked, or is never created. | medium; not executed | `Intake.AddFilesAsWrittenLeaks`, `Uploader.RepeatedFileLeaks` | `Intake.AddFiles`, `Uploader.RunFixedAccountsForHandles` |
