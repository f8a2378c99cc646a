# shapefile-js loader, modelled in Dafny

This project models the decision logic of the shapefile-js loader
(`lib/index.js`). The loader turns an Esri shapefile into GeoJSON. The source
can be a zipped archive in memory, the URL of such an archive, or the URL of
the `.shp`/`.dbf` parts. The model covers:

- **`toBuffer`** (`Buffers`). This normalises the caller's value into a Node
  buffer. It throws on a falsy value and passes a buffer through unchanged. It
  wraps an `ArrayBuffer` whole. A byte-wide typed view gives its own window of
  bytes; any other view gives its whole backing buffer. Anything else gives
  `undefined`.
- **`getPrj` and `conversionPrj`** (`Projections`). The first registers the
  table's definition under `EPSG:<wkid>` and builds a transform from that name;
  `proj4` may throw there. The second scans the
  ordered projection table for the first entry that has one of its substrings in
  the `.prj` text and has a truthy identifier. A `.prj` member resolves in a
  fixed order: `getPrj(epsg) || conversionPrj(text) || proj4(text)`.
- **`shp.combine`** (`Features`). This pairs geometries with attribute records
  by position. It makes one feature per geometry.
- **`shp.parseZip`** (`Archive`). This has two parts:
  - The `for...in` classification loop writes canonical keys into the member
    dictionary in place and collects layer names.
  - The `names.map` callback then builds one result per layer name, tagged with
    a `fileName` that depends on the branch (JSON, whitelisted, or shapefile).
    On the whitelist branch the member itself is tagged in strict mode, so
    only `Buffer` and projection values succeed; an `undefined` or text member
    fails with a `TypeError`.
  - The function returns a bare result when there is one layer and an array
    otherwise. It fails with "no layers founds" when there is none.
- **`checkSuffix` and `shp.getShapefile`** (`Loader`). These choose one of
  three paths from the source.
- **`shp(props)`** (`Loader.Loader`). This is a cache keyed by URL, consulted
  before any work is done. Only successful results for string sources are
  written to it.

The collaborators take part in the model only as the values they return.
They are the function-typed fields of `Interop.Collaborators`:

- archive extraction, the geometry and attribute decoders, `JSON.parse` and the
  two network fetches return a value or throw; a thrown message is carried
  unchanged as `Foreign(message)`;
- `proj4.defs(name, def)` followed by `proj4(name)`, and `proj4(text)`, are
  modelled only by whether they throw; a thrown message is carried as
  `Foreign(message)`, and the transform itself is a symbolic value;
- UTF-8 decoding of a buffer never throws;
- `new URL(base).pathname` gives `None` where the constructor throws, and the
  model then fails with `InvalidUrl(base)`.

JavaScript string operations are written out in `JsString`, with their
JavaScript meaning on names made of characters from the Basic Multilingual
Plane:

- `slice`, with negative indices and clamping;
- `indexOf` and `lastIndexOf`;
- `split(...).pop()`;
- ASCII `toLowerCase`.

Each imperative loop in the source is a `method` with a loop, proved against a
function that specifies it:

| method | loop in the source | specification function |
|---|---|---|
| `Features.Combine` | the `while` loop | `Features.Combined` |
| `Projections.ConversionPrj` | the table scan, with its inner `forEach` and early `break` | `Projections.Converted` |
| `Archive.Classify` | the `for...in` loop | the fold `Archive.ClassifyKeys` |

The cache is a class, `Loader.Loader`. Its method `Shp` keeps the invariant
that every cached result is what `getShapefile` produced for that URL.

### Behaviour of the code worth knowing

- **`combine` does not truncate to the shorter sequence.** The loop runs over
  the geometries only (`lib/index.js:77`), so attributes past the last geometry
  are dropped.
  Features past the last attribute get `undefined` properties, written `None`
  (`Features.CombinedBeyondAttributes`). When the attribute list is absent
  altogether and there are geometries, reading `arr[1][i]` throws.
- **Whitelisted layers are tagged with their full name**, extension included,
  not with the part before the dot (`lib/index.js:120`).
- **JSON detection is not case-insensitive end to end.** The classifier tests
  `slice(-4).toLowerCase()`, but only the last three characters are
  lower-cased in the layer name. The canonical layer name of `x.JSON` is
  `x.Json`, and the case-sensitive JSON test of the callback then misses it
  (`Archive.UpperCaseJsonIsAssembledAsShapefile`).

## Model

| member | source | states |
|---|---|---|
| Buffers.ToBuffer | lib/index.js:21-37 | It fails with "forgot to pass buffer" exactly on a falsy value. A buffer and an `ArrayBuffer` give their bytes. A byte-wide typed view gives the bytes it shows. Any other typed view gives its whole backing buffer. Any other truthy value gives `undefined`. |
| Buffers.ViewBytes | lib/index.js:32-33 | A typed view's own bytes number exactly its `byteLength`. |
| Buffers.ByteViewIsWrap | lib/index.js:31-34 | Normalising a byte-wide view gives the same bytes as passing its window as an `ArrayBuffer`. |
| Buffers.WholeViewAnySize | lib/index.js:31-35 | For a view spanning its whole buffer, the element size does not change the result. |
| Buffers.ToBufferIdempotent | lib/index.js:21-27 | Feeding a normalised buffer back to `toBuffer` returns it unchanged. |
| Interop.PropertyKey | lib/index.js:41 | A numeric identifier prints as a non-empty string, which is the key used in the `EPSG:` template and in the table lookup. A non-negative one prints as decimal digits whose value is the identifier, with no leading zero (it starts with `0` only when it is `"0"`); a negative one starts with `-`. |
| JsString.NatToStringLeadingDigit | lib/index.js:41 | The printed numeral of a natural number starts with `0` exactly when the number is zero. |
| Projections.GetPrj | lib/index.js:39-43 | A falsy identifier gives null. Otherwise the result is the transform named `EPSG:<wkid>`, whose definition is present exactly when the table has that identifier; it fails, with `proj4`'s message, exactly when `proj4` throws for that name and definition. |
| Projections.GetPrjDistinct | lib/index.js:39-43 | Identifiers that print differently yield different transforms when both are built. |
| Projections.FirstWkidIsFirst | lib/index.js:48-56 | For any acceptance test, the ordered scan finds nothing exactly when no entry is accepted. Otherwise it finds the identifier of an accepted entry with no accepted entry before it. |
| Projections.FirstMatchIsFirstHit | lib/index.js:48-56 | The scan settles on the identifier of the first table entry, in order, that has a substring occurring in the text and a truthy identifier. It finds nothing exactly when no entry qualifies. |
| Projections.ConvertedIsFirstHit | lib/index.js:45-58 | `conversionPrj` gives null exactly for a falsy value or when no table entry matches with a truthy identifier. Otherwise it gives `getPrj` of the identifier of the first such entry in table order. |
| Projections.ConversionPrj | lib/index.js:45-58 | The nested scan, with its inner `forEach` that overwrites `fileWkid` and its `break` on a truthy identifier, returns exactly the value `conversionPrj` is specified to give. |
| Projections.ResolvePrj | lib/index.js:102 | The value stored for a `.prj` member follows a priority order. A truthy caller identifier always decides: the result is its `getPrj` transform, or `getPrj`'s exception. Next comes a table match on the member, whose `getPrj` exception propagates. Last comes `proj4` on the member itself, which fails, with `proj4`'s message, exactly when `proj4` throws. |
| Features.Combine | lib/index.js:72-87 | The loop builds the specified collection, typed `FeatureCollection`, with one feature per geometry in order. Feature `i` is typed `Feature`, has geometry `i` and has the i-th record or `undefined`. It fails exactly when the attribute list is absent and there is a geometry. |
| Features.CombinedBeyondAttributes | lib/index.js:77-83 | With more geometries than records, the collection is not truncated, and every feature past the last record has `undefined` properties. |
| Archive.CanonicalKey | lib/index.js:100 | The canonical key is the name with its last three characters lower-cased (the whole name lower-cased when it is shorter). It has the name's length and lower-cases to the same string. It has the same three-character extension view as the name. Canonicalising is idempotent. A name whose last three characters are already lower case is its own canonical key. |
| Archive.ClassifyKeys | lib/index.js:94-108 | Over the key snapshot, the collected names are exactly the layer names of the members, in order. No key is ever removed. Every canonical key the loop writes is present. It can fail only when there is a `.prj` member, and with a truthy caller identifier only when `getPrj` throws for it. |
| Archive.Classify | lib/index.js:94-108 | The loop computes the fold. Its result holds exactly the layer names and keeps every original key. |
| Archive.FailureSticks | lib/index.js:102 | A failure at one member is the failure of the whole loop, because the loop throws out of that iteration. |
| Archive.MetadataStep | lib/index.js:95-97 | A `__MACOSX` member leaves the names and the dictionary unchanged. |
| Archive.WithoutMetadata | lib/index.js:95-97 | The filtered key list holds only original keys, none of them metadata. |
| Archive.MetadataIgnored | lib/index.js:94-97 | Removing every `__MACOSX` member beforehand gives the same outcome. Such members add no name, no canonical key and no failure. |
| Archive.ShpStep | lib/index.js:98-100 | A `.shp` member in any case adds `key.slice(0, -4)` to the names. It maps its canonical key to the member's value. It adds no other key and changes no other value, and the original key keeps its value. |
| Archive.CompanionStep | lib/index.js:105-106 | A `.dbf` or `.cpg` member that is not claimed by the JSON/whitelist test is copied to its canonical key. No name is added. The only key added is the canonical one, and every other key, the original included, keeps its value. |
| Archive.ListedStep | lib/index.js:103-104 | A member claimed by the JSON/whitelist test (and neither `.shp` nor `.prj`) adds its canonical key as a layer name and leaves the dictionary unchanged. |
| Archive.StepKeys | lib/index.js:95-107 | One iteration adds exactly the canonical key of a `.shp`, `.prj` or unclaimed `.dbf`/`.cpg` member, and no key for any other member. |
| Archive.ClassifiedKeys | lib/index.js:94-108 | When the loop succeeds, the final dictionary's keys are exactly the extracted keys plus the canonical keys of the `.shp`, `.prj` and unclaimed `.dbf`/`.cpg` members; JSON, whitelisted and other members add none. |
| Archive.PrjStep | lib/index.js:101-102 | A `.prj` member adds no name. It succeeds exactly when the priority chain does. Its canonical key then holds that transform, it is the only key added, and every other key keeps its value. With a truthy caller identifier it succeeds exactly when `getPrj(epsg)` does, and then holds that transform. |
| Archive.BranchOf | lib/index.js:114-118 | The JSON branch is taken only for names that contain a dot. |
| Archive.FileNameOf | lib/index.js:114-126 | A JSON layer is tagged with the part of its name before the last dot, which has no dot after it. Every other layer is tagged with its full name. |
| Archive.Attributes | lib/index.js:122-124 | Attributes are absent when `zip[name + '.dbf']` is falsy. Otherwise they are the records `parseDbf(zip[name + '.dbf'], zip[name + '.cpg'])` decodes, and the decoder's exception propagates unchanged. |
| Archive.AssembleLayer | lib/index.js:112-129 | The result is tagged with the `fileName` of its branch. A failure is a collaborator's exception or a `TypeError`. |
| Archive.AssembleLayerByBranch | lib/index.js:114-127 | The result's kind follows the branch. A JSON layer holds `JSON.parse(zip[name])`; the branch succeeds exactly when that parse does and otherwise carries its exception. A whitelisted member is tagged in place, which succeeds exactly for an object value, and then returns that value. A shapefile layer is `combine` of the geometries decoded from `zip[name + '.shp']` with `zip[name + '.prj']` and the layer's attributes, so it has one feature per decoded geometry, and none when the `.dbf` is falsy. On that branch the attribute decoder runs first and its exception wins, then the geometry decoder's exception, and once both succeed the branch succeeds exactly when `combine` does. |
| Archive.MapAll | lib/index.js:112 | A successful `map` has one result per name. |
| Archive.MapAllInOrder | lib/index.js:112-129 | `map` succeeds exactly when every call of the callback does. Its i-th result is then the callback's result for the i-th name. |
| Archive.MapAllFirstFailure | lib/index.js:112-129 | A failed `map` carries the exception of the first call that throws. Every earlier call succeeds. |
| Archive.AssembledFileNames | lib/index.js:112-129 | Each assembled result carries the `fileName` of its name's branch. |
| Archive.Package | lib/index.js:130-134 | A bare result is returned exactly when there is one layer. The results are the layers in order. |
| Archive.ParseZip | lib/index.js:88-135 | `parseZip` computes its specification. It rejects a falsy input with "forgot to pass buffer". On success it returns at least one layer result. |
| Archive.ParsedZipLayers | lib/index.js:109-134 | Once extraction and classification succeed, `parseZip` fails with "no layers founds" exactly when no member yields a layer name. On success it returns one result per layer name, bare exactly when there is one, each tagged with its branch's `fileName`. |
| Archive.UpperCaseJsonIsAssembledAsShapefile | lib/index.js:103-115 | With no whitelist, `x.JSON` becomes the layer `x.Json`, which the JSON test of the callback misses, so it is assembled as a shapefile. `x.json` takes the JSON branch. |
| Archive.UpperJsonName | lib/index.js:103-104 | `x.JSON` is listed as the layer `x.Json`. |
| Archive.UpperJsonBranch | lib/index.js:114-118 | `x.Json` is not routed to the JSON branch. |
| Archive.LowerJsonName | lib/index.js:103-104 | `x.json` is listed as the layer `x.json`. |
| Archive.LowerJsonBranch | lib/index.js:114-115 | `x.json` is routed to the JSON branch. |
| Archive.ShpLayerName | lib/index.js:98-99 | Any member `<stem>.shp` outside the metadata folder yields the layer name `<stem>`. |
| Archive.ShpWithoutDot | lib/index.js:98-99 | The `shp` test needs no dot: `datashp` yields the layer `dat`. |
| Archive.WhiteListIsCaseSensitive | lib/index.js:103-104 | `a.TXT` is not a layer under the whitelist `["txt"]`. It is the layer `a.txt` under `["TXT"]`. |
| Archive.TxtClassifierView | lib/index.js:103-104 | The classifier's view of `a.TXT` is: not metadata, extension `txt`, last part `TXT`, canonical key `a.txt`. |
| Archive.TwoShapefileLayers | lib/index.js:98-99 | Two `.shp` members with distinct stems give two layers, named and tagged with their stems. |
| Loader.CheckSuffix | lib/index.js:163-166 | For a four-character suffix, the test holds exactly when the pathname has at least four characters and its last four, lower-cased, equal the suffix. |
| Loader.ZipSuffixAnyCase | lib/index.js:165 | Any spelling of `.zip` in any case at the end of a pathname selects the archive path. |
| Loader.ShortPathnameNeverMatches | lib/index.js:165 | A pathname shorter than four characters never selects the archive path. |
| Loader.RouteOf | lib/index.js:167-173 | A non-string goes to `parseZip`. A URL that `new URL` rejects fails. A URL whose pathname ends in `.zip` in any case goes to fetch-then-archive. Every other URL goes to fetching the parts. |
| Loader.GetShapefile | lib/index.js:167-179 | A non-string is handed to `parseZip` unchanged. A URL that `new URL` rejects fails with `InvalidUrl`. On the archive path, a fetch failure propagates, and fetched bytes are handed to `parseZip` as a buffer; that path never yields a merged collection. The parts path succeeds exactly when fetching the parts does, and then yields one feature per geometry. |
| Loader.Loader.constructor | lib/index.js:17-19 | The cache starts empty. |
| Loader.Loader.Shp | lib/index.js:60-71 | On a URL already cached, it returns the cached result and changes nothing, even when the options differ; that result is what `getShapefile` gave under the options of the call that cached it. Otherwise it runs `getShapefile`, and caches the result only for a URL and only on success. Every cached result stays what `getShapefile` produced for its URL. |
| Loader.ShpTwice | lib/index.js:62-68 | A second request for a URL whose first request succeeded returns the same result, and `getShapefile` runs once. After a failure it runs again. |

## Left out

- `lru-cache` eviction (`max: 20`, `lib/index.js:17-19`) is not modelled. The cache is an unbounded map.
- Loader.Loader.Shp: entries are never evicted, so a URL stays cached forever. In the source, the least recently used of more than twenty URLs would be fetched again.
- Loader.Loader.Shp: the collaborators are fixed when the loader is built, so a remote resource never changes. The model cannot show a cached result going stale after the resource at its URL changes.
- Loader.Loader.Shp: calls run one after the other. Two overlapping `shp` calls for the same URL that both miss the cache before either resolves (`lib/index.js:62-68`), and so both fetch, are not modelled.
- Network I/O is not modelled. That covers `binaryAjax`, `getZip`, `handleShp` and `handleDbf` (`lib/index.js:137-162`). The archive fetch is the `fetch` collaborator. The fetch-and-decode of the parts is the `fetchParts` collaborator, which yields the geometries and the attribute records. That includes `handleShp`'s try/catch that degrades an unparsable `.prj` to no projection.
- Promise and `async` sequencing and `Promise.all` are not modelled. A rejected promise is a `Failure`, and a resolved one is a `Success`.
- `proj4` is treated as opaque:
  - a transform built by name is `Named("EPSG:<wkid>", definition)`;
  - one parsed from a member is `Parsed(member)`;
  - whether `proj4` throws is the `proj4Named` and `proj4Parse` collaborators;
  - the registry side effect of `proj4.defs` is not modelled, so whether a name
    builds cannot depend on earlier registrations.
- `new URL(base).pathname` is the `urlPathname` collaborator. `None` stands for the constructor throwing.
- `toLowerCase` is modelled on ASCII letters only.
- JavaScript indexes strings by UTF-16 code units; a Dafny `string` is a sequence of Unicode scalar values. `slice`, `indexOf` and `lastIndexOf` therefore differ from JavaScript on names with characters outside the Basic Multilingual Plane: for a member `x😀shp` the source pushes the layer name `x` followed by a lone high surrogate, the model pushes `x`.
- `for...in` is modelled over a snapshot of the member names taken before the loop (`Archive.keys`). Canonical keys that the loop adds are not visited again.
- Archive extraction decides whether a member is a `Buffer` or a text. `prj.toString()` on a buffer is the `decodeUtf8` collaborator.
- Archive.AssembleLayer: on the JSON branch, tagging `fileName` onto a parsed document is taken to succeed. In strict mode, a document that parses to `null` or to a primitive would throw a `TypeError` there.
- Interop.PropertyKey: numeric identifiers are unbounded integers printed in plain decimal. JavaScript prints numbers of magnitude 1e21 or more in exponent form, and fractional numbers with a point; neither is modelled.
- The contents of the `epsg` and `projection` tables are parameters (`Interop.Tables`). Identifiers are looked up by their printed form, as JavaScript property access does.
- The exported helpers `shp.parseShp` and `shp.parseDbf` (`lib/index.js:180-197`) are not part of this model. They are thin wrappers around the decoders.
- The decoders `parseShp` and `parsedbf`, `unzip` and `JSON.parse` are not part of this model. They enter only as collaborators.
