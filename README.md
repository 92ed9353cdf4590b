# Powerline full-path breadcrumb and text helpers, in Dafny

This project models two parts of powerline:

- The `full_path` segment in `powerline/custom_segments/common.py`. The segment shortens the working directory (`~` for home, `[not found]` for a deleted directory). It splits the path on `/`, drops the current directory, and shortens each ancestor to `dir_shorten_len` characters. With `dir_limit_depth` it keeps only the last entries, behind an ellipsis. It marks the root as `/` and emits one segment record per non-empty entry. With `use_path_separator` it gives each record a trailing `/`, then fixes the first and last records.
- The text helpers in `powerline/lib/unicode.py`:
  - `u`: strict UTF-8 decoding.
  - `powerline_decode_error`: the codec error handler that shows a bad byte as `<XX>`.
  - `out_u`: decoding with the locale codec and that handler.
  - `string`: conversion to the interpreter's native `str`.

The files:

- `wrappers.dfy` holds `Option` and `Result`. Python exceptions become `Failure` values.
- `utf8.dfy` is the reference semantics of the strict `'utf-8'` codec. It follows section 3 of RFC 3629 (well-formed sequences per its section 4 grammar). A malformed sequence is reported as its maximal valid prefix (1 to 3 bytes), which is what Python's decoder reports. It proves both round trips between `Encode` and `Decode`.
- `unicode.dfy` models the four helpers:
  - `out_u`'s codec loop is the method `DecodeWithHandler`. It walks a byte index and resumes where the handler says. It is proved against the function `DecodeReplacingFrom`.
  - The locale codec is a parameter: any `Decoder` that consumes between one byte and all remaining bytes.
  - The interpreter major version is a `Runtime` parameter.
- `breadcrumb.dfy` models `get_shortened_path` and `__call__`:
  - The pipeline is a chain of functions ending in `FullPathRecords`.
  - `__call__` itself is imperative: `BuildEntries` edits the list in place, `EmitSegments` runs the append loop and the fix-ups, and `FullPathSegments` composes them. Each method is proved equal to the functional pipeline.
  - `FullPath` is the whole call as written, including the crash described under Findings.
  - The working directory, the home directory and the warning are plain values.

The code is followed where the documentation at `common.py:87-89` says otherwise. The documentation shows `/long/path/to/powerline` becoming `/l/p/t/powerline`. The code at line 56 never shortens the last surviving ancestor, so it gives `/l/p/to`. `ShortenAncestors` states this.

## Model

| member | source | states |
|---|---|---|
| Utf8.Utf8Step | powerline/lib/unicode.py:28 | The strict UTF-8 decoder reads one character, or reports a malformed span of 1 to 3 bytes. It always consumes at least one byte and never more than it has. |
| Utf8.EncodeChar | powerline/lib/unicode.py:111 | A scalar value's UTF-8 encoding is 1 to 4 bytes. |
| Utf8.DecodeFrom | powerline/lib/unicode.py:28 | A strict decode that fails reports a span inside the input, after the start position. |
| Utf8.StepEncodeChar | powerline/lib/unicode.py:28 | Decoding an encoded character gives that character and consumes exactly its bytes, whatever follows. |
| Utf8.StepSound | powerline/lib/unicode.py:28 | Every character the decoder reads re-encodes to exactly the bytes it consumed. |
| Utf8.MalformedSpanIsMaximal | powerline/lib/unicode.py:28 | A malformed span is the maximal valid prefix: no encoding of any character starts the input, a span of 2 or 3 bytes begins the encoding of some character, and the span plus the next byte begins none. |
| Utf8.NoLongerPrefix | powerline/lib/unicode.py:28 | A malformed span extended by the next byte is a prefix of no character's encoding. |
| Utf8.DecodeEncodeFrom | powerline/lib/unicode.py:28 | Decoding an encoding that follows any prefix gives the text back. |
| Utf8.DecodeEncode | powerline/lib/unicode.py:28 | `Decode(Encode(s)) == Success(s)` for every text. |
| Utf8.EncodeDecodeFrom | powerline/lib/unicode.py:28 | Bytes that decode strictly from a position are the encoding of the decoded text. |
| Utf8.EncodeDecode | powerline/lib/unicode.py:28 | Bytes that decode strictly are the encoding of what they decode to. |
| Unicode.U | powerline/lib/unicode.py:22-28 | Text is returned unchanged. Decoded bytes re-encode to the input. A decode failure is a UnicodeDecodeError on those bytes with a non-empty span inside them. Any other value raises TypeError. |
| Unicode.HexToken | powerline/lib/unicode.py:47 | `'<{0:02X}>'` gives 4 characters, `<` first and `>` last. HexTokenParses shows the middle two are the byte's hex digits. |
| Unicode.HexTokenParses | powerline/lib/unicode.py:47 | Each token reads back as the byte it shows. |
| Unicode.HexTokens | powerline/lib/unicode.py:46-48 | The joined tokens have exactly 4 characters per byte. |
| Unicode.HexTokensAt | powerline/lib/unicode.py:46-48 | The `k`-th 4-character block is the token of the `k`-th byte. |
| Unicode.HexTokensParse | powerline/lib/unicode.py:46-48 | The joined tokens read back as exactly the bytes they show. |
| Unicode.PySlice | powerline/lib/unicode.py:48 | `obj[start:end]` with Python's clamping is no longer than `obj`, and is the plain slice when the bounds are in range. |
| Unicode.PowerlineDecodeError | powerline/lib/unicode.py:43-49 | The handler succeeds exactly on UnicodeDecodeError and raises NotImplementedError otherwise. It resumes at `e.end` and returns 4 characters per byte of `object[start:end]`. |
| Unicode.HandlerOutputParses | powerline/lib/unicode.py:43-49 | The handler's text reads back as exactly the bytes of the failing span. |
| Unicode.HandlerTokens | powerline/lib/unicode.py:43-49 | For an in-range span, the handler's `k`-th token shows byte `start + k`. |
| Unicode.CodecStep | powerline/lib/unicode.py:52 | One step of the codec with the registered handler always advances, and stays within the input. |
| Unicode.DecodeWithHandler | powerline/lib/unicode.py:52-65 | The decode loop that `out_u` triggers returns exactly `DecodeReplacingFrom(dec, bs, 0)` and never raises. |
| Unicode.PieceAt | powerline/lib/unicode.py:65 | The piece cut at a position holds exactly the bytes the decoder consumed there. |
| Unicode.PiecesCoverInput | powerline/lib/unicode.py:65 | The decoder's pieces cover the input exactly, in order: no byte is lost or duplicated. |
| Unicode.PieceRendersStep | powerline/lib/unicode.py:65 | A piece renders as what one codec step appends, and both resume at the same position. |
| Unicode.PiecesRenderOutput | powerline/lib/unicode.py:65 | The output of `out_u` is the rendering of those pieces: characters as themselves, bad spans as `<XX>` tokens. |
| Unicode.Utf8PieceReencodes | powerline/lib/unicode.py:65 | With UTF-8 as codec, a decoded piece re-encodes to its bytes. |
| Unicode.Utf8PiecesReencode | powerline/lib/unicode.py:65 | With UTF-8 as codec, every character piece re-encodes to the bytes it came from. |
| Unicode.ReplacingAgreesWithStrict | powerline/lib/unicode.py:65 | On well-formed UTF-8, decoding with the handler equals strict decoding. |
| Unicode.OutU | powerline/lib/unicode.py:55-67 | `out_u` fails exactly on values that are neither text nor bytes, with TypeError. Text is returned unchanged. Bytes give the rendering of the decoder's pieces: each character as itself, each malformed span as its `<XX>` tokens. |
| Unicode.OutUAgreesWithU | powerline/lib/unicode.py:22-28 | With a UTF-8 locale, `out_u` equals `u` wherever `u` succeeds. |
| Unicode.NativeString | powerline/lib/unicode.py:109-113 | A native `str` is returned unchanged, and any success is a native `str`. Other text becomes its UTF-8 bytes. Anything else raises AttributeError. |
| Unicode.NativeStringRoundTrip | powerline/lib/unicode.py:109-113 | On either runtime, `u(string(t)) == t` for text `t`. |
| Breadcrumb.GetShortenedPath | powerline/custom_segments/common.py:28-46 | Warns exactly on errno 2, and then returns `[not found]`. Any other OSError is re-raised, and decode errors of `u` propagate. When home shortening is on and `home` is truthy, a leading `u(home)` becomes `~`; otherwise the decoded path is returned. |
| Breadcrumb.ExpandHomeUndoesShortening | powerline/custom_segments/common.py:40-46 | Home shortening loses nothing: expanding `~` again gives the decoded working directory. |
| Breadcrumb.Split | powerline/custom_segments/common.py:50 | `split('/')` gives at least one piece, no piece holds `/`, and there are two or more pieces exactly when the path holds `/`. |
| Breadcrumb.JoinSplit | powerline/custom_segments/common.py:50 | Joining the pieces of a split with `/` gives the path back. |
| Breadcrumb.SplitPrefix | powerline/custom_segments/common.py:50 | Text without `/` in front of a path extends the first piece of the split. |
| Breadcrumb.SplitJoin | powerline/custom_segments/common.py:50 | Splitting a join of pieces without `/` gives the pieces back. |
| Breadcrumb.Ancestors | powerline/custom_segments/common.py:53 | Cutting the current directory leaves one piece fewer, and at least one when the path holds `/`. |
| Breadcrumb.JoinAppend | powerline/custom_segments/common.py:53 | Joining with one more piece appends `/` and that piece. |
| Breadcrumb.AncestorsArePathParent | powerline/custom_segments/common.py:50-53 | The ancestors joined with `/`, then `/` and the current directory, give the path. The current directory holds no `/`. |
| Breadcrumb.ShortenAncestors | powerline/custom_segments/common.py:56 | Every entry but the last becomes a prefix of itself, `min(n, len)` long, and empty exactly when it was. The last entry and the count are kept. An unset or zero `n` changes nothing. |
| Breadcrumb.ShortenIdempotent | powerline/custom_segments/common.py:56 | Shortening twice is shortening once. |
| Breadcrumb.LimitDepth | powerline/custom_segments/common.py:57-60 | With more than `depth + 1` entries, only the last `depth` remain, behind the ellipsis unless it is None. Otherwise the list is kept. The last entry always survives. |
| Breadcrumb.MarkRoot | powerline/custom_segments/common.py:62-63 | An empty first entry becomes `/`. A non-empty one, and every later entry, is untouched. |
| Breadcrumb.Entries | powerline/custom_segments/common.py:50-63 | The list the loop walks is non-empty, and its first entry is non-empty. |
| Breadcrumb.Emit | powerline/custom_segments/common.py:64-74 | At most one record per entry. Every record is non-empty, in group `cwd:divider`, and draws the inner divider exactly when the separator is not used. In separator mode every record is at least 2 characters long. |
| Breadcrumb.FixSeparators | powerline/custom_segments/common.py:75-78 | The fix-ups keep the count, groups and divider flags. Outside separator mode nothing changes. In separator mode the last record loses its final character; with two or more records the first loses a leading `/`; the records in between are unchanged; and no record becomes empty. |
| Breadcrumb.Segments | powerline/custom_segments/common.py:64-79 | At least one record is returned, and no record is empty. |
| Breadcrumb.FullPathRecords | powerline/custom_segments/common.py:48-79 | The records for a path holding `/`: at least one, none empty, all `cwd:divider`, and `draw_inner_divider` is `not use_path_separator`. |
| Breadcrumb.EmitNonEmpty | powerline/custom_segments/common.py:62-74 | Because the root is marked, the loop always appends at least one record, so `ret[-1]` at line 76 exists. |
| Breadcrumb.NonEmpty | powerline/custom_segments/common.py:66-67 | The entries the loop does not skip: no more than there were, none empty, and a non-empty first entry stays first. |
| Breadcrumb.Contents | powerline/custom_segments/common.py:71 | The contents of the records, in order. |
| Breadcrumb.NonEmptyAppend | powerline/custom_segments/common.py:66-67 | Skipping empty entries commutes with appending one entry. |
| Breadcrumb.EmitShowsNonEmptyEntries | powerline/custom_segments/common.py:65-74 | The records show exactly the non-empty entries, decorated, in order. |
| Breadcrumb.PlainModeShowsEntries | powerline/custom_segments/common.py:64-79 | Without the separator, the records' contents are exactly the non-empty entries. |
| Breadcrumb.ConcatDecorated | powerline/custom_segments/common.py:68-69 | Entries each followed by `/`, except the last, concatenate to their join. |
| Breadcrumb.NonEmptyAll | powerline/custom_segments/common.py:66-67 | With no empty entry, nothing is skipped. |
| Breadcrumb.SeparatedTexts | powerline/custom_segments/common.py:68-76 | One text per entry. |
| Breadcrumb.SeparatorModeEmitsAll | powerline/custom_segments/common.py:65-74 | In separator mode with no empty entry, record `k` holds entry `k` followed by `/`. |
| Breadcrumb.StripFirst | powerline/custom_segments/common.py:77-78 | Stripping the first entry's leading `/` keeps the count. |
| Breadcrumb.GaplessSeparatorModeTexts | powerline/custom_segments/common.py:64-79 | The same texts for a list with no empty entry. |
| Breadcrumb.EmitSkipsEmpty | powerline/custom_segments/common.py:65-67 | Removing the empty entries beforehand gives the same records, because the loop skips them. |
| Breadcrumb.SeparatorModeTexts | powerline/custom_segments/common.py:64-79 | For any list with a non-empty first entry, the separator-mode texts are the non-empty entries, each followed by `/` except the last. The first loses a leading `/` when more records follow. |
| Breadcrumb.SeparatorModeSpellsEntries | powerline/custom_segments/common.py:64-79 | Read together, the separator-mode records spell the non-empty entries joined by `/`. The first `/` is dropped when the first entry starts with it and more records follow. |
| Breadcrumb.JoinDropFirst | powerline/custom_segments/common.py:77-78 | Dropping the first entry's first character drops the join's first character. |
| Breadcrumb.SeparatorModeShowsParent | powerline/custom_segments/common.py:48-79 | Without shortening and depth limit, and when no ancestor other than the root is empty, the separator-mode records spell the parent directory, or `/` for a directory right below the root. |
| Breadcrumb.BuildEntries | powerline/custom_segments/common.py:50-63 | The in-place list edits (slice, comprehension, `del`, `insert`, root mark) produce exactly `Entries(path, opts)`. |
| Breadcrumb.EmitSegments | powerline/custom_segments/common.py:61-79 | The append loop and the in-place fix-ups produce exactly `Segments(cwd, use_path_separator)`. |
| Breadcrumb.FullPathSegments | powerline/custom_segments/common.py:48-79 | For a shortened path holding `/`, the records returned are `FullPathRecords(path, opts)`. |
| Breadcrumb.CallOutcome | powerline/custom_segments/common.py:48-56 | The call raises IndexError exactly when the shortened path has no `/`. Errors of `get_shortened_path` propagate. It succeeds exactly when the shortened path holds `/`, and then returns `FullPathRecords` of that path. |
| Breadcrumb.FullPath | powerline/custom_segments/common.py:48-79 | The whole call as written. It warns exactly on errno 2 and returns `CallOutcome`. |
| Breadcrumb.CallCrashesWithoutParent | powerline/custom_segments/common.py:37 | After errno 2, and when the working directory is the home directory, the call raises IndexError. |
| Breadcrumb.NotFoundHasNoSeparator | powerline/custom_segments/common.py:37 | The `[not found]` placeholder holds no `/`. |
| Breadcrumb.CorrectedOutcome | powerline/custom_segments/common.py:28-56 | The intended outcome succeeds exactly when `get_shortened_path` does. After errno 2 it is one `[not found]` record. Any other path without `/` gives no records. A path with `/` gives `FullPathRecords` of it. |
| Breadcrumb.FullPathCorrected | powerline/custom_segments/common.py:48-79 | The call with a guard for a path without `/`. It warns exactly on errno 2 and returns `CorrectedOutcome`. |
| Breadcrumb.CorrectionOnlyRemovesCrash | powerline/custom_segments/common.py:56 | The corrected call never raises IndexError, and equals the code as written wherever that does not raise IndexError. Where that crashes, it gives the `[not found]` record after errno 2 and no records otherwise. |
| Breadcrumb.DefaultsShowAncestors | powerline/custom_segments/common.py:48 | With the default arguments, the records show exactly the non-empty ancestors, with the root as `/`. |

## Left out

- `safe_unicode`, `FailedUnicode` and `tointiter` are not part of this model.
  - `safe_unicode` depends on `str()`/`repr()` of arbitrary objects.
  - `FailedUnicode` is an empty subclass.
  - `tointiter` only converts between the two runtimes' byte types.
- `codecs.register_error` and the codec registry are not modelled. Registering the handler is modelled as the handler being the one the decode loop calls.
- `getpreferredencoding()` is a parameter (`Decoder`). Stateful or multi-character codecs are not modelled: one step yields one character or one malformed span.
- The Python 2 UTF-8 decoder reports some malformed spans differently from Python 3. Only the Python 3 (maximal valid prefix) spans are modelled.
- A UnicodeDecodeError with negative `start` or `end` is not modelled; positions are natural numbers.
- Unicode.NativeString: text containing lone surrogates is not modelled, because Dafny's `char` excludes them. So the UnicodeEncodeError that `encode('utf-8')` would raise on them is not modelled.
- Breadcrumb.SeparatorModeShowsParent: stated only for parents with no empty component other than the root (a `//` inside the path). SeparatorModeSpellsEntries covers those lists too, spelling the non-empty entries.
- `os.sep` is fixed to `/`. Windows separators are not modelled.
- The error message texts of TypeError and NotImplementedError are not modelled; only the exception kinds are.
- The segment plumbing is not modelled: `argspecobjs`, `omitted_args`, `requires_segment_info`, and the `full_path` registration with its docstring (common.py:15-26, 82-104). `segment_info` is reduced to its `getcwd` outcome and `home` value.
- The `getcwd` call and `pl.warn` are I/O. Their outcome is an input (`GetcwdOutcome`), and the warning is an output flag. Exceptions other than OSError from `getcwd` are not modelled.
- Unused `**kwargs` of `__call__`, and argument values whose types differ from those documented, are not modelled.

## Findings

| source | as written | input that shows it | evidently intended | confidence | as-written member | corrected member |
|---|---|---|---|---|---|---|
| powerline/custom_segments/common.py:56 | `cwd_split[-1]` is read after `cwd_split[:-1]` even when that leaves an empty list. This happens whenever the shortened path holds no `/`, so the call raises IndexError. | Either `getcwd` raises OSError with errno 2 (the shortened path is `[not found]`), or the working directory equals `segment_info['home']` with `shorten_home` on (the shortened path is `~`). | A vanished directory shows as one `[not found]` record next to the warning, as the errno 2 branch at lines 32-37 prepares. A path with no parent (`~`) shows no parent records. Otherwise the result is unchanged. | not executed; the crash follows from the code's own branches | Breadcrumb.CallCrashesWithoutParent | Breadcrumb.CorrectionOnlyRemovesCrash |
