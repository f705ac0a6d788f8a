# SSI request handler, modelled in Dafny

`ssi_server.py` is a drop-in replacement for Python's `SimpleHTTPServer`.
Its request handler, `SSIRequestHandler`, intercepts the mapping from a
request path to a file. Script files (`.py`, `.pyc`) are refused. A request
ending in `/` gets a directory index: `index.html`, then `index.htm`, then
`index.shtml`. An existing `.html`/`.shtml` document has its
`<!-- #include -->` directives expanded into a fresh temporary file. That
temporary file is what the base handler sends, and it is removed after the
response.

The model has three modules:

- `Wrappers` holds `Option`.
- `PyPaths` holds the Python string and path primitives the handler relies
  on, with their POSIX semantics:
  - `str.endswith`
  - the slice `s[-n:]`
  - ASCII `str.lower`
  - `str.rfind`
  - `os.path.join`, where an absolute second argument replaces the first
  - `os.path.splitext`, where leading dots of a file name never start an
    extension
- `SsiServer` holds the handler.
  - The pure decision `translate_path` makes is `Resolve`. It returns a
    `Target`: `Refused(message)`, `Render(source)` or `Pass(path)`.
  - The delivery suffix of a temporary file is `DeliveryExt` / `TempSuffix`.
  - The effect of the removal loop on the disk is `Removal`.
  - The class `Handler` carries the handler's fields:
    - `path` is the request path the base handler parsed.
    - `tempFiles` is the `temp_files` list.
    - `live` holds the temporary files this handler created that are still
      on disk, with their contents.

    Its methods `TranslatePath`, `CreateTempFile`, `DeleteTempFiles`, `DoGet`
    and `DoHead` are imperative and are proved against those functions. The
    index loop of `translate_path` is the method `ProbeIndex`, proved
    against `Probe`.

The environment enters as parameters:

- `fsPath` is what the base handler's `translate_path` made of the request.
- `docs` is the set of paths `os.path.exists` accepts.
- `inline` is the include expander `ssi.InlineIncludes`, an opaque function
  of the document path and the request path.
- `stem` is the name `tempfile.mkstemp` picks, before the suffix. The
  requirement `FreshStem` says no file of the handler on disk starts with
  it. That is stronger than what the operating system guarantees, which is
  only that the full name `stem + suffix` did not exist yet; `CreateTempFile`
  relies on nothing more than that consequence.
- `baseCompleted` tells whether the base handler's `do_GET`/`do_HEAD`
  returned or raised.

Where the code and the design description of the server differ, the model
follows the code:

- **Cleanup is not idempotent.** `delete_temp_files` never empties
  `temp_files`, and `os.remove` raises on a missing file. So a second
  cleanup on the same handler raises on the first name and stops
  (`SecondRemovalFails`). A second request on the same handler therefore
  leaves its own temporary file behind (`ReloadOnSameHandler`). With the
  base handler's default HTTP/1.0 each handler serves one request, so this
  shows only on persistent connections.
- **Cleanup is skipped when the base handler raises.** `do_GET`/`do_HEAD`
  have no `try`/`finally`. When the base handler raises, the temporary
  files stay on disk (`DoGet`, `DoHead` with `baseCompleted` false).
- **Not every `.shtml` document is delivered as `.html`.** A document whose
  file name is all dots before the suffix (such as `/srv/.shtml`) has no
  extension under `os.path.splitext`, so its temporary file gets no suffix
  at all (`TempSuffixOfPage`).
- **Two different paths are used.** The trailing-`/` test reads the
  handler's own `self.path`. The error text and the include expander get
  the argument `path`. `Resolve` keeps the two apart (`requestPath` and
  `argPath`); the base handler passes `self.path` for both.

## Model

| member | source | states |
|---|---|---|
| SsiServer.Resolve | ssi_server.py:47-63 | No contract of its own: the decision of translate_path, characterised by ResolveOutcome, IndexPriority and the index lemmas. |
| SsiServer.IsScript | ssi_server.py:49 | No contract of its own: the script test, characterised by ScriptSuffix. |
| SsiServer.Located | ssi_server.py:53 | No contract of its own: index substitution only for a request ending in '/', characterised by ResolveOutcome and IndexPriority. |
| SsiServer.Probe | ssi_server.py:54-58 | No contract of its own: the index loop as a function, characterised by ProbeCandidate, ProbeFirst and ProbeNone. |
| SsiServer.IsPage | ssi_server.py:60 | No contract of its own: the case-sensitive .html/.shtml test, used by ResolveOutcome and TempSuffixOfPage. |
| SsiServer.TempSuffix | ssi_server.py:70-73 | No contract of its own: the delivery suffix of a path, characterised by DeliveryExt, Ext and TempSuffixOfPage. |
| SsiServer.ResolveOutcome | ssi_server.py:47-63 | A path is refused exactly when it is a script path, and the refusal text is "File not found: " followed by the request path. A request not ending in '/' keeps the filesystem path. Otherwise the chosen file is the filesystem path or an existing index candidate joined to it. The chosen file is rendered if and only if it ends in .html or .shtml and exists. |
| SsiServer.ScriptSuffix | ssi_server.py:49-51 | The script test (last 3 characters lower-case to ".py", or last 4 to ".pyc") holds exactly when some suffix of the path lower-cases to ".py" or ".pyc". |
| SsiServer.ProbeIndex | ssi_server.py:53-58 | The index loop returns the first candidate, in order, whose joined path exists, or the directory unchanged. |
| SsiServer.ProbeCandidate | ssi_server.py:53-58 | The probe result is the directory itself, or an existing path equal to the directory joined with one of the names. |
| SsiServer.ProbeFirst | ssi_server.py:54-58 | When the k-th candidate is the first that exists, probing picks it. |
| SsiServer.ProbeNone | ssi_server.py:54-58 | When no candidate exists, the directory is kept. |
| SsiServer.IndexPriority | ssi_server.py:53-58 | For a request ending in '/': index.html if it exists, else index.htm, else index.shtml, else the directory path unchanged. |
| SsiServer.HtmIndexPassedThrough | ssi_server.py:53-63 | A chosen index.htm is passed to the base handler unrendered. |
| SsiServer.ShtmlIndexRenderedAsHtml | ssi_server.py:53-63 | A chosen index.shtml is rendered, and its temporary file has suffix .html. |
| SsiServer.HtmlIndexRendered | ssi_server.py:53-63 | A chosen index.html is rendered, and its temporary file has suffix .html. |
| SsiServer.DeliveryExt | ssi_server.py:70-72 | The delivery suffix is the original extension, except that .shtml becomes .html; it is never .shtml. |
| SsiServer.TempSuffixOfPage | ssi_server.py:70-73 | For any path ending in .html or .shtml, the suffix handed to mkstemp is .html, or empty for a file name that is all dots before the suffix. |
| SsiServer.RenderedSuffix | ssi_server.py:60-62 | Whatever translate_path renders exists, and its temporary name is the fresh stem followed by .html (or no suffix, as above). |
| SsiServer.Removal | ssi_server.py:65-67 | The removal loop only removes files. When a name is missing it raises on that name, which was on the list and is not left on disk. When it completes, none of the listed names is left on disk. |
| SsiServer.RemovalStops | ssi_server.py:66-67 | The removal loop raises on the first name that is missing or repeated; exactly the names before it have been removed and every other file stays on disk. |
| SsiServer.RemovalSucceeds | ssi_server.py:65-67 | The removal loop completes exactly when the list has no duplicates and every name is on disk; it then removes exactly the listed names. |
| SsiServer.SecondRemovalFails | ssi_server.py:65-67 | After a completed removal, running it again over the same list raises on the first name and changes nothing. |
| SsiServer.Handler.constructor | ssi_server.py:35-37 | A new handler has an empty temporary-file list and no temporary files on disk. |
| SsiServer.Handler.CreateTempFile | ssi_server.py:69-81 | It creates a temporary file named stem plus the delivery suffix, distinct from every live file, holding the content. It appends exactly that name to the list and returns it. It keeps every live file on the list, and keeps the list free of duplicates and equal to the live files. |
| SsiServer.Handler.DeleteTempFiles | ssi_server.py:65-67 | It removes the listed files in order and stops at the first missing one, reporting it. The list itself is left unchanged. When every listed file is live and distinct, it raises nothing and leaves no temporary file on disk. Whenever it completes without raising, no temporary file of the handler is left on disk. |
| SsiServer.Handler.TranslatePath | ssi_server.py:47-63 | It returns the refusal text, the chosen path, or the temporary file of the rendered document, as Resolve decides. A render appends exactly one new name to the list and writes the expanded content under it; any other outcome leaves the list and the disk unchanged. |
| SsiServer.Handler.DoGet | ssi_server.py:39-41 | It serves what translate_path of the handler's own path decides. When the base handler completes, it then runs the removal loop over the whole list; when the base handler raises, nothing is removed. When the base handler completes, a fresh handler ends with no temporary file on disk. |
| SsiServer.Handler.DoHead | ssi_server.py:43-45 | The same as DoGet, for HEAD. |
| SsiServer.ServedDistinct | ssi_server.py:73 | Distinct names from mkstemp give distinct temporary files for the same document. |
| SsiServer.ReloadOnSameHandler | ssi_server.py:36-45 | Two GETs of one page on the same handler: the first removes its file without error. The second raises on the first request's file, which is already gone. The second request's temporary file stays on disk. |
| PyPaths.LowerEqualsIff | ssi_server.py:49 | The character-by-character comparison used for the script test agrees with comparing `lower()` of the string. |
| PyPaths.LastIndex | ssi_server.py:70 | The index of the last occurrence of a character, or -1; no occurrence follows it. |
| PyPaths.Ext | ssi_server.py:70 | The extension splitext yields is empty exactly when the file name has no non-dot character before its last dot. Otherwise it starts with '.', ends the path, and contains no further '.' or '/'. |
| PyPaths.JoinEndsWith | ssi_server.py:55 | The joined index path ends with the index name. |
| PyPaths.Lower | ssi_server.py:49 | Lower-casing keeps the length and lower-cases each character in place. |
| PyPaths.LowerChar | ssi_server.py:49 | Each ASCII capital becomes the lower-case letter at the same place in the alphabet; every other character is unchanged. |
| PyPaths.EndsWith | ssi_server.py:53 | No contract of its own: `str.endswith`, used by JoinEndsWith, Ext and TempSuffixOfPage. |
| PyPaths.Tail | ssi_server.py:49 | No contract of its own: the slice `s[-n:]`, characterised by ScriptSuffix. |
| PyPaths.Join | ssi_server.py:55 | No contract of its own: `os.path.join`, characterised by JoinEndsWith. |
| PyPaths.HasStem | ssi_server.py:70 | No contract of its own: the condition under which splitext finds an extension, characterised by Ext. |

## Left out

- `ssi.InlineIncludes` is an opaque function parameter; include parsing, nesting and cycles are not modelled, and its module is not part of this model.
- The base handler's own `translate_path` (URL decoding, normalisation, traversal handling) is not modelled; its result is the input `fsPath`.
- The base handler's HTTP dispatch, header writing, MIME guessing and file sending are not modelled, so the refusal text that it then tries to open as a file is modelled only as the returned string.
- The entry point at ssi_server.py:84-85 (command-line port, server loop) is I/O plumbing and is not modelled.
- `tempfile.mkstemp`'s choice of name is a parameter (`stem`) with the freshness assumption `FreshStem`; the file descriptor, `os.write` and `os.close` are folded into adding the file to `live`.
- The Python 2/3 `bytes` fallback at ssi_server.py:74-77 is not modelled; content is kept as a string.
- Files other than the handler's own temporary files are not tracked on disk; `docs` is fixed for the duration of a request.
- Concurrency between handler instances and the shared temporary directory are not modelled; each handler owns its list.
- PyPaths.Lower: folds ASCII letters only, while Python's `str.lower` also folds non-ASCII capitals. No non-ASCII character lower-cases to '.', 'p', 'y' or 'c', so the script test is unaffected.
