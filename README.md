# vite_asset: the Vite manifest template tag

The repository's one piece of original server-side logic is the Django
template tag `vite_asset(entry)`. Given the name of a build entry
(`src/index.jsx`), it reads the Vite build manifest. The manifest is a JSON
object from entry names to records. The tag finds the entry's record and
renders it as HTML:

- one `<link rel="stylesheet" href="…">` per file in the record's `css` list,
  in list order;
- then one `<script type="module" src="…"></script>` for the record's `file`;
- all tags joined with the two-character separator `"\n "`.

Every URL goes through the static-files URL mapping first. The tag returns the
empty string when there is no manifest file, when the file is not valid JSON,
or when the entry is not a key of the manifest. A record without a `file` key
makes the tag raise `KeyError('file')`. The model keeps this as an error
outcome rather than ruling the input out.

Files:

- `Wrappers.dfy`: the `Option` datatype, used for keys that may be absent.
- `ViteTags.dfy`: module `ViteTags`. It holds the data model (`Entry`,
  `Manifest`, `ManifestSource`, `Outcome`) and the tag texts. It has
  `ViteAsset`, a method that builds the tag list in a loop as the source
  does. Beside it are the specification functions it is proved against
  (`Links`, `EntryTags`, and `Join` for Python's `str.join`) and the lemmas
  about them. `SplitTags` is the inverse of the join, and `CountSeparators`
  counts the places where `"\n "` occurs.

## Model

| member | source | states |
|---|---|---|
| `ViteTags.LinkTag` | src/frontend/templatetags/vite_tags.py:48 | The stylesheet link text: `<link rel="stylesheet" href="`, the URL, then `">`, with no escaping, as the source's f-string writes it. |
| `ViteTags.ScriptTag` | src/frontend/templatetags/vite_tags.py:53 | The module script text: `<script type="module" src="`, the URL, then `"></script>`, as the source's f-string writes it. |
| `ViteTags.CssFiles` | src/frontend/templatetags/vite_tags.py:45-46 | The record's `css` list, and the empty list when the `css` key is absent, so that the loop runs no times. |
| `ViteTags.Links` | src/frontend/templatetags/vite_tags.py:45-48 | The links the loop appends: one `LinkTag` of the mapped URL per CSS file, in list order. |
| `ViteTags.EntryTags` | src/frontend/templatetags/vite_tags.py:42-53 | The full tag list of a record with `file`: its links, then one `ScriptTag` of the mapped `file` URL. |
| `ViteTags.Join` | src/frontend/templatetags/vite_tags.py:55 | Python's `sep.join(parts)`: the empty string for no parts, the part itself for one, and otherwise the parts with `sep` between each consecutive pair. |
| `ViteTags.ViteAsset` | src/frontend/templatetags/vite_tags.py:16-55 | A missing or undecodable manifest gives `""`. An entry that is not a manifest key gives `""`. A record without `file` raises `KeyError("file")`. Otherwise the result is the record's link tags followed by its script tag, joined by `"\n "`. The loop invariant says that after i steps the list holds the links for the first i CSS files, in order. |
| `ViteTags.LinksShape` | src/frontend/templatetags/vite_tags.py:45-48 | There is exactly one link per CSS file, and the i-th link's href is the mapped URL of the i-th CSS file. |
| `ViteTags.EntryTagsShape` | src/frontend/templatetags/vite_tags.py:42-53 | A record with `file` yields n + 1 tags, where n is the number of CSS files. An absent `css` key counts as 0 files. The links come first, in manifest order. The script tag for `file` comes last. It is the only tag that is a script tag. |
| `ViteTags.JoinEnds` | src/frontend/templatetags/vite_tags.py:55 | For any separator and any non-empty list of parts, the joined string starts with the first part and ends with the last. |
| `ViteTags.CountAround` | src/frontend/templatetags/vite_tags.py:55 | Putting `"\n "` between two strings adds exactly one occurrence of it. No occurrence forms across either seam. |
| `ViteTags.CountJoin` | src/frontend/templatetags/vite_tags.py:55 | Joining n ≥ 1 parts that do not contain `"\n "` gives exactly n − 1 separators. |
| `ViteTags.SplitJoin` | src/frontend/templatetags/vite_tags.py:55 | Splitting at `"\n "` recovers the joined list, provided no part contains the separator. The join is therefore lossless. |
| `ViteTags.LinkTagSeparators` | src/frontend/templatetags/vite_tags.py:48 | The fixed text of a link tag contains no separator and creates none next to the URL. A link tag contains a separator only when its URL does. |
| `ViteTags.ScriptTagSeparators` | src/frontend/templatetags/vite_tags.py:53 | The same holds for the script tag. |
| `ViteTags.RenderedSplitsIntoTags` | src/frontend/templatetags/vite_tags.py:42-55 | Assume no mapped URL of the record contains `"\n "`. This is a realistic hypothesis: Django's `static()` percent-encodes the path it is given, so a newline becomes `%0A`. Under it, the rendered HTML splits back into exactly the record's tags, and it holds exactly as many separators as there are CSS files. |
| `ViteTags.RenderedHasNoOuterSeparator` | src/frontend/templatetags/vite_tags.py:42-55 | For a record with `file`, whatever the URLs, the rendered HTML neither starts nor ends with `"\n "`. It opens with the first tag's `<` and closes with the script tag's `>`. |
| `ViteTags.NoCssRendersScriptOnly` | src/frontend/templatetags/vite_tags.py:45-55 | A record with no CSS files renders as the script tag alone, with no separator. |

## Left out

- Finding and reading the manifest file: the path built from `BASE_DIR`, `exists()`, `open` and `json.load`. This is I/O. Its result is the `ManifestSource` input: `Missing`, `Undecodable` or `Loaded(manifest)`. Other I/O errors, such as a file that cannot be read, propagate in the source and are not modelled.
- JSON values of the wrong shape are not modelled: a manifest that is not an object, a record that is not an object, a `css` value that is not a list of strings, or a `file` that is not a string. The source raises or misbehaves on these in ways Python's dynamic typing decides. The model's types admit only well-shaped manifests. Record keys other than `file` and `css` are ignored, as in the source.
- Django's `static()` is a foreign library call. It is a total `string -> string` parameter. Any exception it can raise, such as a file missing from a hashed static-files manifest, is not modelled.
- `mark_safe` is not modelled. The model returns the plain string that it wraps.
- The `logger.debug` calls are not modelled. They are logging only and do not change the result.
- Outside this tag, the frontend scaffold is not part of this model: the React entry point and root component, the Sentry setup, and the Vite configuration. The Django view and the context processor are not part of it either. The view passes two settings to `render`, and the context processor reads `DEBUG` with a default of `False`.
