# fta — a verified model of the label-dialect conversions

fta ("Fathom training assistant") stores web-page samples and lets people
label elements on them. A label lives on a page in one of two dialects:
the Fathom dialect, `data-fathom="<label>"`, and the internal one,
`data-fta_id="<id>"`, where the id is keyed to a label in the database.
This project models the parts of fta that carry real logic about those
dialects and about the pages themselves, and proves what they promise:

- the exporter `convert_labeled_sample_to_fathom_sample`
  (fta/samples/utils.py). It stamps `data-fathom` onto every element whose
  `data-fta_id` a stored label names. It is modelled as a method over an
  array of element objects and is proved equal to a fold, `Stamp`. Lemmas
  show that the last write wins, that only `data-fathom` changes and that
  unknown ids are ignored. `find_all(attrs={"data-fta_id": id})` is
  modelled as BeautifulSoup 4 up to 4.12 matches attributes (`SoupStrainer._matches`): an element without
  `data-fta_id` is found by the empty id, so a stored label with an empty
  id (which the picker can submit) stamps every element without one;
- the contract of the importer `convert_fathom_sample_to_labeled_sample`,
  as the three tests in fta/samples/tests.py pin it down. The contract is
  replayed on each test page, and a witness shows that every page can meet
  it;
- the in-browser picker of fta/static/js/labeler.js. It is a class holding
  the `picking` flag, the hovered element and `pickedElementsMap`, with one
  method per event handler. `handleFormSubmit` is a loop proved against the
  label-data function `LabelData`;
- `get_frozen_metadata` (fta/samples/views.py). It splits the SingleFile
  comment of a saved page into its url and raw capture-time text, with
  each failure as an error value. A round trip through a header of the form
  `<banner>\nurl: <url>\ndate: <time> (<zone>)` is proved;
- `humansize` in fta/samples/utils.py and its copy in fta/samples/tables.py.
  Both loops are proved equal to one closed-form unit choice.

A page is modelled as its elements in document order, each with a map of
attributes (module `Dom`). `find_all` and the label loops visit every element
in that order, so the tree does not matter. `element.dataset.fta_id` in the
browser is the attribute `data-fta_id`. Python's `str.strip`, `str.split`,
`str.find`, `str.startswith` and `str.rstrip` are modelled in module `PyStr`,
with the whitespace set of `str.isspace`.

## Model

| member | source | states |
|---|---|---|
| Dom.CountWith | fta/samples/tests.py:34-37 | the number of elements carrying an attribute is at most the page size, and is zero exactly when no element carries it |
| PyStr.StripLeft | fta/samples/views.py:22 | `lstrip()` yields a suffix that does not start with whitespace, and everything dropped is whitespace |
| PyStr.StripRight | fta/samples/views.py:22 | `rstrip()` yields a prefix that does not end with whitespace, and everything dropped is whitespace |
| PyStr.IsSpace | fta/samples/views.py:22 | the characters `str.isspace` treats as whitespace, which `strip()` removes; used by StripLeft and StripRight |
| PyStr.Strip | fta/samples/views.py:22 | `strip()`: the result is no longer than the text, and neither starts nor ends with whitespace |
| PyStr.StartsWith | fta/samples/views.py:23 | `startswith(p)`: `p` is a prefix of the text; the banner check of GetFrozenMetadata uses it |
| PyStr.Find | fta/samples/views.py:25-26 | `find(sep)`: the first index where the separator occurs, or none; characterised by FindFromIsFirst and FindNoneIffLacks |
| PyStr.Split | fta/samples/views.py:22-26 | `split(sep)` always yields at least one piece; SplitFirstPiece, SplitSecondPiece, SplitJoinsBack and SplitPiecesLackSeparator characterise the pieces |
| PyStr.RStripChar | fta/samples/utils.py:12 | `rstrip(c)` yields a prefix that does not end with `c`, and everything dropped is `c` |
| PyStr.FindFromIsFirst | fta/samples/views.py:25-26 | searching from `i` finds the first occurrence at or after `i`, and finds none exactly when there is none |
| PyStr.FindNoneIffLacks | fta/samples/views.py:25-26 | `find` fails exactly when the separator does not occur; otherwise it returns the first occurrence |
| PyStr.SplitFirstPiece | fta/samples/views.py:26 | the first piece of `split` is the text before the first separator, or the whole text when there is none; there is one piece exactly when the separator is absent |
| PyStr.SplitSecondPiece | fta/samples/views.py:25 | when the separator occurs, the second piece of `split` runs from after its first occurrence to the next one, or to the end |
| PyStr.SplitJoinsBack | fta/samples/views.py:22 | joining the pieces of `split` with the separator gives back the text |
| PyStr.SplitPiecesLackSeparator | fta/samples/views.py:22 | no piece of `split` contains the separator |
| SampleUtils.LastIndexFor | fta/samples/utils.py:19-22 | finds the last stored label naming an id, and finds none exactly when no label names it |
| SampleUtils.SearchedId | fta/samples/utils.py:20 | the id `find_all` matches an element by: its `data-fta_id`, or the empty id when it has none (BeautifulSoup 4 up to 4.12) |
| SampleUtils.FoundBy | fta/samples/utils.py:20 | `find_all(attrs={"data-fta_id": id})` finds the element exactly when SearchedId is `id`; Matching and FindAllByFtaId are proved against it |
| SampleUtils.StampOne | fta/samples/utils.py:20-22 | one stored label's effect on one element: `data-fathom` set to the slug when the label's id finds the element, else nothing; UnknownIdIgnored and EveryMatchIsLabeled state both cases |
| SampleUtils.Stamp | fta/samples/utils.py:19-22 | the element's attributes after every stored label, applied in order; StampIsLastWrite, StampKeepsId and OnlyFathomChanges characterise it, and ConvertLabeledSampleToFathomSample is proved equal to it |
| SampleUtils.LastSlugFor | fta/samples/utils.py:19-22 | the slug of the last stored label naming an id, or none; StampIsLastWrite proves the fold writes exactly it |
| SampleUtils.StampIsLastWrite | fta/samples/utils.py:19-22 | after the labels are applied, an element whose id some label names has `data-fathom` set to the slug of the last such label; an element without `data-fta_id` counts as having the empty id. Any other element is unchanged, including when the label set is empty |
| SampleUtils.StampKeepsId | fta/samples/utils.py:19-22 | the exporter never adds, removes or changes `data-fta_id` |
| SampleUtils.OnlyFathomChanges | fta/samples/utils.py:19-22 | every attribute other than `data-fathom` is present afterwards exactly when it was before, with the same value; `data-fathom` is only added to an element carrying an id, or to any element when some label names the empty id |
| SampleUtils.EveryMatchIsLabeled | fta/samples/utils.py:20-22 | every element found by a labeled id gets that label's slug, not only the first one, unless a later label names the same id |
| SampleUtils.UnknownIdIgnored | fta/samples/utils.py:20-21 | a label whose id does not find the element changes nothing for it |
| SampleUtils.EmptyIdStampsUnidentified | fta/samples/utils.py:20-22 | a label with the empty id stamps its slug onto an element that has no `data-fta_id` |
| SampleUtils.StampPrefix | fta/samples/utils.py:19-22 | applying one more label extends the fold by exactly that label's step |
| SampleUtils.Matching | fta/samples/utils.py:20 | the matches are the elements `find_all` finds by the id (its `data-fta_id` equals the id, or it has none and the id is empty), all of them and nothing else |
| SampleUtils.FindAllByFtaId | fta/samples/utils.py:20 | `find_all(attrs={"data-fta_id": id})` returns the matching elements in document order |
| SampleUtils.SetFathomOnEach | fta/samples/utils.py:21-22 | each tagged element gets `data-fathom` set to the slug; nothing else changes |
| SampleUtils.ConvertLabeledSampleToFathomSample | fta/samples/utils.py:16-23 | after the nested loops, every element's attributes equal the fold of the labels over its old attributes |
| SampleUtils.UnitIndex | fta/samples/utils.py:8-11 | the unit index is in 0..5; it is positive only when the count reaches 1024^i, and below 5 only when the count is under 1024^(i+1) |
| SampleUtils.UnitIndexIsUnique | fta/samples/utils.py:9 | the loop's exit condition determines the unit: any index meeting those bounds is UnitIndex |
| SampleUtils.DivideOnce | fta/samples/utils.py:10 | dividing by 1024 once more keeps the value exactly `nbytes / 1024^(i+1)` |
| SampleUtils.ScaledAtLeastUnit | fta/samples/utils.py:9 | the loop test `value >= 1024` holds exactly when `nbytes >= 1024^(i+1)` |
| SampleUtils.TrimNumber | fta/samples/utils.py:12 | the trimmed number never ends in "." |
| SampleUtils.Scaled | fta/samples/utils.py:9-11 | the count in the unit UnitIndex chooses, `nbytes / 1024^i` exactly; ScaledInRange bounds it and DivideOnce ties it to the loop |
| SampleUtils.HumanSizeOf | fta/samples/utils.py:12-13 | the trimmed formatted Scaled value, a space, and the suffix of UnitIndex; HumanSize and SampleTables.HumanSize are proved to return it, and SuffixIsBytesIff and SuffixCapsAtPetabytes pin the suffix |
| SampleUtils.HumanSize | fta/samples/utils.py:6-13 | the loop's result is the trimmed `nbytes / 1024^u`, a space, and the suffix of the unit `u` that UnitIndex chooses |
| SampleUtils.SuffixIsBytesIff | fta/samples/utils.py:9-13 | the suffix is "B" exactly when the count is below 1024 |
| SampleUtils.SuffixCapsAtPetabytes | fta/samples/utils.py:9-13 | from 1024^5 on, the suffix is "PB" and the value is `nbytes / 1024^5` |
| SampleUtils.ScaledInRange | fta/samples/utils.py:9-11 | above bytes the scaled value is at least 1, and below PB it is under 1024 |
| SampleUtils.TrimKeepsIntegerDigits | fta/samples/utils.py:12 | trimming `%.2f` output, negative values included, keeps the whole integer part and its sign, drops only trailing fractional zeros, and drops the "." only when both decimals are zero |
| SampleTables.HumanSize | fta/samples/tables.py:11-17 | the tables.py copy returns what the utils.py `humansize` returns, for every count and formatter |
| SampleViews.Lines | fta/samples/views.py:22 | `comment.strip().split("\n")`; HeaderLines and BannerThenUrlLines compute it for banner/url/date headers |
| SampleViews.UrlField | fta/samples/views.py:25 | `split("url:")[1].strip()`: fails with the url error exactly when the line has no "url:"; UrlFieldIsBetween gives its value |
| SampleViews.RawTimeField | fta/samples/views.py:26 | `split("date:")[1].strip().split("(")[0]`: fails with the date error exactly when the line has no "date:"; RawTimeFieldIsBeforeParen gives its value |
| SampleViews.GetFrozenMetadata | fta/samples/views.py:15-28 | a `freeze_software` other than "SinglePage" gives the empty url and the default time. For "SinglePage", a result exists only when the first line starts with the banner and there are exactly three lines, and then its url and raw time are the fields read from lines 2 and 3. A missing banner, a wrong line count, a missing "url:" and a missing "date:" each fail, checked in that order |
| SampleViews.BetweenFirstAndSecond | fta/samples/views.py:25 | the text between the first and second separator is absent exactly when the separator does not occur |
| SampleViews.SecondPieceIsBetween | fta/samples/views.py:25-26 | `split(sep)[1]` exists exactly when the separator occurs, and is the text between its first and second occurrences |
| SampleViews.UrlFieldIsBetween | fta/samples/views.py:25 | the url is the stripped text between the first and second "url:"; a line without "url:" fails with an index error |
| SampleViews.RawTimeFieldIsBeforeParen | fta/samples/views.py:26 | the raw time is the stripped text after the first "date:" (up to any second one), cut before its first "(", so whitespace before the "(" is kept; a line without "date:" fails |
| SampleViews.OtherSoftwareIsNotParsed | fta/samples/views.py:17-19 | for any `freeze_software` value other than the literal "SinglePage" the result is the empty url and the default time, whatever the page holds |
| SampleViews.HeaderLines | fta/samples/views.py:22 | a header of the form `<banner>\nurl: <url>\ndate: <time> (<zone>)` strips to itself and splits into its banner, url and date lines |
| SampleViews.UrlLine | fta/samples/views.py:25 | the line `url: <url>` yields the url |
| SampleViews.DateLine | fta/samples/views.py:26 | the line `date: <time> (<zone>)` yields the time text with the space before "(" |
| SampleViews.ParsedLines | fta/samples/views.py:22-26 | three lines that pass the banner check and both field reads give their url and raw time |
| SampleViews.HeaderRoundTrip | fta/samples/views.py:20-26 | reading back a header of the form `<banner>\nurl: <url>\ndate: <time> (<zone>)` recovers the url exactly and the time text with its trailing space |
| SampleViews.MissingDateLine | fta/samples/views.py:22-24 | a header without a date line fails the three-line assertion |
| SampleViews.BannerThenUrlLines | fta/samples/views.py:22 | a banner line and a url line split into exactly those two lines |
| LabelerContract.PageBeginUnlabeled | fta/samples/tests.py:5-10 | the page start carries neither `data-fathom` nor `data-fta_id` |
| LabelerContract.MeetsContract | fta/samples/tests.py:26-73 | what the three tests require of a conversion: dictionary entries = input `data-fathom` carriers = output `data-fta_id` carriers, and the dictionary's labels are the input's labels; the scenario lemmas below replay it and ContractSatisfiable shows it can be met |
| LabelerContract.HasLabel | fta/samples/tests.py:30-31 | some element of the page is labeled `v` in the Fathom dialect; WitnessLabels uses it |
| LabelerContract.Witness | fta/samples/tests.py:26-73 | a conversion that draws one fresh id per labeled element; WitnessIds, WitnessOutputIds and WitnessLabels prove it meets the contract |
| LabelerContract.CountWithAppend | fta/samples/tests.py:34-37 | counting carriers over two runs of elements adds the counts |
| LabelerContract.OneLabeledElement | fta/samples/tests.py:26-37 | on the first test page any conforming result has one entry, "search" among its labels, and exactly one element carrying `data-fta_id` in the output, as the test counts them |
| LabelerContract.TwoLabeledElements | fta/samples/tests.py:40-54 | on the second test page: two entries, "search" and "email" among the labels, and two `data-fta_id`, not three |
| LabelerContract.TwoElementsSameLabel | fta/samples/tests.py:57-73 | on the third test page: two entries, every label "email", and two `data-fta_id` |
| LabelerContract.OnlyEmailLabels | fta/samples/tests.py:20-23 | the third test page has no label other than "email" |
| LabelerContract.WitnessIds | fta/samples/tests.py:26-61 | the witness draws one id per labeled input element, so its dictionary has as many entries as the input has labels |
| LabelerContract.WitnessOutputIds | fta/samples/tests.py:32-73 | the witness output has as many `data-fta_id` carriers as the dictionary has entries |
| LabelerContract.WitnessLabels | fta/samples/tests.py:30-64 | the witness dictionary's labels are exactly the labels of the input |
| LabelerContract.ContractSatisfiable | fta/samples/tests.py:26-73 | given an id supply that never repeats, every input page has an output and a dictionary meeting the contract |
| LabelerUi.Keys | fta/static/js/labeler.js:305 | the map's keys are its elements, in insertion order |
| LabelerUi.Has | fta/static/js/labeler.js:305 | `map.has(e)`: `e` is one of the map's elements; Click and Input branch on it |
| LabelerUi.DistinctKeys | fta/static/js/labeler.js:270 | no element is in `pickedElementsMap` twice; the picker's Valid invariant, kept by every method |
| LabelerUi.Delete | fta/static/js/labeler.js:115 | `map.delete(e)`: never longer than the map; DeleteAbsent, DeleteRemovesEntry and DeleteKeepsDistinct characterise it |
| LabelerUi.SetTag | fta/static/js/labeler.js:141 | `map.get(e).tag = tag`: same length and elements, the entry of `e` takes the new tag and every other tag is unchanged |
| LabelerUi.DeleteAbsent | fta/static/js/labeler.js:115 | deleting an element that is not in the map changes nothing |
| LabelerUi.DeleteRemovesEntry | fta/static/js/labeler.js:115 | deleting an element removes exactly its entry and keeps the other entries in order |
| LabelerUi.DeleteKeepsDistinct | fta/static/js/labeler.js:115 | after a delete, no element is in the map twice |
| LabelerUi.SetTagKeepsKeys | fta/static/js/labeler.js:141 | setting a tag keeps the map's elements and their order, and keeps them distinct |
| LabelerUi.ItemsOf | fta/static/js/labeler.js:152-157 | the submit loop sees each entry's tag and its element's current `fta_id`, in map order |
| LabelerUi.EmitCount | fta/static/js/labeler.js:154-156 | at most one datum per entry |
| LabelerUi.DrawCount | fta/static/js/labeler.js:159-161 | new ids are drawn only for emitted entries |
| LabelerUi.IdAt | fta/static/js/labeler.js:157-161 | the id submitted for an entry: the element's own `fta_id`, or the next draw from the supply; ExistingIdKept and NewIdsDistinct characterise it |
| LabelerUi.AfterSubmit | fta/static/js/labeler.js:157-161 | an element's attributes after submit: `data-fta_id` set to its new id when its entry draws one, else unchanged; Picker.Submit is proved to leave exactly that |
| LabelerUi.LabelData | fta/static/js/labeler.js:152-167 | the label data has one datum per entry with a non-empty tag |
| LabelerUi.LabelDataEntry | fta/static/js/labeler.js:152-166 | each entry with a non-empty tag is emitted, in map order, as its id and its own tag |
| LabelerUi.LabelDataTagsNonEmpty | fta/static/js/labeler.js:153-156 | no datum carries an empty label |
| LabelerUi.ExistingIdKept | fta/static/js/labeler.js:157-158 | an element that already has an `fta_id`, even an empty one, is submitted with that id |
| LabelerUi.NewIdsDistinct | fta/static/js/labeler.js:160 | two elements that get new ids get different ones when the supply never repeats |
| LabelerUi.Picker.constructor | fta/static/js/labeler.js:265-276 | picking starts as asked, the hovered element is the page body, and the map is empty |
| LabelerUi.Picker.Hover | fta/static/js/labeler.js:286-292 | while picking, the hovered element becomes the target; otherwise nothing changes |
| LabelerUi.Picker.Click | fta/static/js/labeler.js:295-313 | while picking, an element not yet in the map is appended with tag ""; an element already there keeps its tag; nothing changes when not picking |
| LabelerUi.Picker.Remove | fta/static/js/labeler.js:113-116 | the map becomes the map without that element, which removes exactly its entry |
| LabelerUi.Picker.Input | fta/static/js/labeler.js:140-142 | typing sets that element's tag to the input value; for an element no longer in the map it reports failure and changes nothing |
| LabelerUi.Picker.Toggle | fta/static/js/labeler.js:354-360 | picking flips; nothing else changes |
| LabelerUi.Picker.Submit | fta/static/js/labeler.js:147-167 | the returned label data is LabelData of the map as it was. An element that draws a new id has exactly that id written to `data-fta_id`; every other element is unchanged |

## Left out

- HTML parsing and serialisation (`BeautifulSoup(...)`, `soup.encode("utf-8")`, `outerHTML`) are foreign calls. A page is its elements in document order with their attributes. The exporter's byte result is not modelled; the model states the elements' new attributes instead.
- Attribute order, text content and the tree shape of a page are not modelled. The exporter, the labeler contract and the picker do not look at them, and `get_frozen_metadata` takes its comment text as a parameter (below).
- The `value=` attribute of the test fragments in fta/samples/tests.py:13-19 is left out. How a parser reads `value=/>` varies, and no test looks at it.
- `%.2f` rounding in `humansize` is a parameter, `format2: real -> string`, standing for "`%.2f` of the nearest double". The scaled value is the exact real `nbytes / 1024^i`. `nbytes /= 1024.0` (fta/samples/utils.py:10) first turns the count into a double, which rounds above 2^53; dividing by a power of two afterwards is exact, so for |nbytes| < 2^1024 the double the source formats is the nearest double to `nbytes / 1024^i`, which `format2` receives as that real.
- SampleUtils.HumanSize, SampleTables.HumanSize, SampleUtils.SuffixCapsAtPetabytes: the source raises `OverflowError` once |nbytes| reaches about 2^1024, because no double holds the count (`nbytes /= 1024.0` at fta/samples/utils.py:10 and fta/samples/tables.py:14, or `"%.2f" % nbytes` at fta/samples/utils.py:12 and fta/samples/tables.py:16 for negative counts). The model uses unbounded integers and returns a string there; page sizes never come near that bound.
- SampleViews.HeaderRoundTrip: the exact comment text SingleFile writes is not modelled. fta/samples/views.py:22-26 fixes only the banner prefix, three lines and the "url:" and "date:" markers, so the round trip is proved for the layout `<banner>\nurl: <url>\ndate: <time> (<zone>)` only. Other layouts are covered by GetFrozenMetadata's own contract.
- `uuid4`/`uuidv4` is an injected id supply, `supply: nat -> string`. Distinct ids are proved under the hypothesis that the supply never repeats.
- `datetime.now()` and `dateutil.parser.parse` are not modelled. `FrozenMetadata.rawTime` is `None` for the default time and otherwise holds the text handed to `parse`. Failures of `parse` are not modelled.
- `soup.html.contents[0]` in fta/samples/views.py:21 is not modelled: `GetFrozenMetadata` takes the comment text. A page whose first child is not a comment is out of scope.
- LabelerContract: the body of `convert_fathom_sample_to_labeled_sample` is not part of this model: fta/samples/tests.py:3 imports it from `.utils`, but fta/samples/utils.py does not define it. Only its contract, as the tests assert it, is modelled. `Witness` shows that the contract can be met; it is not a model of that missing code.
- LabelerUi: overlays, positions, scroll tracking, focus, `preventDefault`, the handler wiring of `hookAllElements`, `callWhenLoaded` timers and the form writes of fta/static/js/labeler.js:168-169 are DOM, geometry and timing code.
- `createOverlaysForPreExistingLabels` (fta/static/js/labeler.js:174-196) is not modelled. It refers to an undefined `element` (187, 190), and `createPickingUiForIframe` never passes `preExistingLabels` on (246-248). The picker therefore starts with an empty map, which is what `Picker.constructor` states.
- LabelerUi.Picker.Input: a JavaScript `TypeError` (the handler reading `.tag` of `undefined`) becomes the result `ok == false` with no change.
- The exporter returns only the converted page (fta/samples/utils.py:23); it produces no ".n" file-name suffix, and fta has no dataset splitter.
- fta/samples/admin.py, models, forms, REST views, serializers, the router, settings, deployment scripts, storage and test fixtures are Django plumbing, configuration or I/O.
