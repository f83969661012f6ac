# Download dictionaries of VAST Extragalactic DR1

This project models the index-building script of the VAST Extragalactic DR1
download tools. The script looks up a data collection on the CSIRO Data
Access Portal (DAP) and saves two dictionaries:

- lightcurve file name → download URL;
- cutout source identifier → download URL, merged over all cutout folders.

The model covers the three parts of the script that compute something:

- **`encodeIdentifier`** (module `Identifier`). It turns a persistent link
  (a DOI or Handle resolver URL, a DAP landing page, a collection-browse page)
  into the bare identifier the DAP web service expects.
  - It first picks an encode character from the keyword arguments `version`
    and `baseURL`.
  - It removes every occurrence of a fixed list of URL prefixes.
  - For collection-browse pages it cuts the query string.
  - It writes slashes as `~` only when `version == 1`.
- **The loops of `create_lightcurves_dict` and `create_cutout_dict`** (module
  `DownloadDictionaries`). Each turns a listed file name into a key and a
  download URL and assigns it into a dictionary. These loops are `method`s
  proved against a specification function on the listing.
- **The merge loop of `build_cutout_url_index`**. It folds the per-folder
  outcomes (a dictionary, or an exception) with `merged.update`, in the
  order the folder tasks complete. The completion order is an input
  sequence.

Supporting modules:

- `PyStr` models the Python `str` operations the script uses, with CPython's
  semantics:
  - `find` returns the first index or -1;
  - `replace` replaces every non-overlapping occurrence from the left;
  - `split` on one character, with `join` as its inverse.
- `PyDict` models a dictionary filled by successive assignments, where a
  later assignment to the same key wins.
- `Wrappers` holds `Option`. An absent keyword argument, a missing or null
  JSON field, and an entry without a `filename` are all `None`.

Keyword arguments follow Python truthiness. `baseURL=""` counts as not
given, and so does `version=0`.

Where the docstring of `encodeIdentifier` and its code disagree, the model
follows the code; see "## Findings".

## Model

| member | source | states |
|---|---|---|
| Identifier.SelectEncoding | download_tools/.ipynb_checkpoints/create_download_dictionaries-checkpoint.py:58-83 | A truthy `version` picks `~` for 1 and `/` otherwise. Without one, a truthy `baseURL` picks `~` for the original service's URL and `/` for any other. With neither, the result is version 2 with `/`. `version` ends as 1 exactly when it was passed as 1, and then the character is `~`. |
| Identifier.VersionTakesPrecedence | download_tools/.ipynb_checkpoints/create_download_dictionaries-checkpoint.py:43 | A truthy `version` decides the encode character whatever `baseURL` is. |
| Identifier.RemoveAllWithoutMatch | download_tools/.ipynb_checkpoints/create_download_dictionaries-checkpoint.py:89-101 | A chain of `replace(p, "")` leaves a string unchanged when none of its non-empty patterns occurs in it. |
| Identifier.ContainsAnyNone | download_tools/.ipynb_checkpoints/create_download_dictionaries-checkpoint.py:102-105 | The `or` of the four `in` tests is false exactly when no browse prefix occurs. |
| Identifier.WithoutMarkersNoPattern | download_tools/.ipynb_checkpoints/create_download_dictionaries-checkpoint.py:89-109 | None of the 13 removed patterns occurs in a string that has neither `:` nor `?`. |
| Identifier.ExtractUnlisted | download_tools/.ipynb_checkpoints/create_download_dictionaries-checkpoint.py:89-112 | An input containing none of the resolver, landing-page, `?index=1` or browse patterns comes out of the stripping unchanged. |
| Identifier.RemoveAllLeading | download_tools/.ipynb_checkpoints/create_download_dictionaries-checkpoint.py:89-101 | A chain of removals, applied to `p + t` and starting with `p`, gives `t` when no pattern occurs in `t`. |
| Identifier.RemoveAllAppend | download_tools/.ipynb_checkpoints/create_download_dictionaries-checkpoint.py:89-101 | Removing the patterns of two lists in turn is removing those of the first list, then those of the second. |
| Identifier.RemoveAllAt | download_tools/.ipynb_checkpoints/create_download_dictionaries-checkpoint.py:89-101 | A chain of removals applied to `p + t`, where `p` is any one of its patterns, gives `t`. This holds when no pattern before `p` occurs in `p + t` and no pattern occurs in `t`. |
| Identifier.ExtractResolver | download_tools/.ipynb_checkpoints/create_download_dictionaries-checkpoint.py:89-106 | Each of the nine DOI, Handle, `?index=1` and landing-page patterns, in front of `t`, is stripped and leaves exactly `t`. This holds when no listed pattern occurs in `t` and no pattern removed earlier occurs across the join. Unlike `ExtractDoi`, `t` may contain `:`, as the `csiro:NNNNN` identifiers of landing pages do. |
| Identifier.ExtractBrowse | download_tools/.ipynb_checkpoints/create_download_dictionaries-checkpoint.py:89-112 | Each of the four collection-browse prefixes, in front of `t`, is stripped, and `t` is cut before its first `?`. This holds when no resolver pattern occurs in the input, no browse prefix occurs in `t`, and no browse prefix removed earlier occurs across the join. |
| Identifier.ExtractDoi | download_tools/.ipynb_checkpoints/create_download_dictionaries-checkpoint.py:89 | `https://doi.org/` followed by an identifier without `:` and `?` is stripped to that identifier. |
| Identifier.DropQueryPrefix | download_tools/.ipynb_checkpoints/create_download_dictionaries-checkpoint.py:110-112 | Truncating at `find("?")` yields a prefix without `?`. That prefix is the whole string or stops just before a `?`. |
| Identifier.BrowseQueryDropped | download_tools/.ipynb_checkpoints/create_download_dictionaries-checkpoint.py:102-112 | When a browse prefix is present after the resolver removals, the result has no `?`. Otherwise nothing is truncated. |
| Identifier.EncodeVersion1 | download_tools/.ipynb_checkpoints/create_download_dictionaries-checkpoint.py:116-117 | With `version=1`, whatever `baseURL` is, the result is the stripped identifier with every `/` turned into `~`. It has the same length, maps character by character, and contains no `/`. |
| Identifier.EncodeKeepsSlashes | download_tools/.ipynb_checkpoints/create_download_dictionaries-checkpoint.py:116 | For any `version` other than 1, or none, the stripped identifier is returned with its slashes. |
| Identifier.EncodeUnlisted | download_tools/.ipynb_checkpoints/create_download_dictionaries-checkpoint.py:89-119 | An input without any listed pattern is returned unchanged, except for the `version=1` slash encoding. |
| Identifier.EncodeDoi | download_tools/.ipynb_checkpoints/create_download_dictionaries-checkpoint.py:89-119 | `https://doi.org/` followed by an identifier without `:` and `?` gives the identifier, with its slashes as `~` exactly when `version=1`. |
| Identifier.DocIdTilde | download_tools/.ipynb_checkpoints/create_download_dictionaries-checkpoint.py:48 | Writing `~` for `/` in the docstring's identifier gives `10.4225~08~59475c67be7a4`. |
| Identifier.DocExamplesByVersion | download_tools/.ipynb_checkpoints/create_download_dictionaries-checkpoint.py:46-50 | The docstring DOI with `version=1` gives `10.4225~08~59475c67be7a4`, and with `version=2` gives `10.4225/08/59475c67be7a4`, whatever `baseURL` is. |
| Identifier.DocExampleV2BaseUrl | download_tools/.ipynb_checkpoints/create_download_dictionaries-checkpoint.py:53-54 | The docstring DOI with `baseURL="https://data.csiro.au/dap/ws/v2/"` gives `10.4225/08/59475c67be7a4`. |
| Identifier.V1BaseUrlAloneKeepsSlashes | download_tools/.ipynb_checkpoints/create_download_dictionaries-checkpoint.py:61-63 | With the original service's `baseURL` and a falsy `version`, `~` is selected, yet the result is the stripped identifier with its slashes. |
| Identifier.DocExampleV1BaseUrlKeepsSlashes | download_tools/.ipynb_checkpoints/create_download_dictionaries-checkpoint.py:51-52 | The docstring DOI with `baseURL="https://ws.data.csiro.au/"` gives `10.4225/08/59475c67be7a4`, not the `10.4225~08~59475c67be7a4` the docstring shows. |
| Identifier.CollectionDoi | download_tools/.ipynb_checkpoints/create_download_dictionaries-checkpoint.py:220-227 | The script's call on `https://doi.org/10.25919/nh9d-t846`, with no keyword arguments, gives `10.25919/nh9d-t846`. |
| Identifier.EncodeDoiIntended | download_tools/.ipynb_checkpoints/create_download_dictionaries-checkpoint.py:35-37 | Under the intended encoding, such a DOI gives its identifier, with slashes as `~` exactly when `~` was selected. |
| Identifier.EncodeDoiIntendedByVersion | download_tools/.ipynb_checkpoints/create_download_dictionaries-checkpoint.py:70-78 | Under the intended encoding, a non-zero `version` gives `~` slashes for 1 and keeps them otherwise. |
| Identifier.EncodeDoiIntendedByBaseUrl | download_tools/.ipynb_checkpoints/create_download_dictionaries-checkpoint.py:61-68 | Under the intended encoding, a non-empty `baseURL` alone gives `~` slashes for the original service's URL and keeps them otherwise. |
| Identifier.IntendedDocExamplesByVersion | download_tools/.ipynb_checkpoints/create_download_dictionaries-checkpoint.py:46-50 | The two `version` examples of the docstring hold for the intended encoding. |
| Identifier.IntendedDocExamplesByBaseUrl | download_tools/.ipynb_checkpoints/create_download_dictionaries-checkpoint.py:51-54 | The two `baseURL` examples of the docstring, including the `~` one, hold for the intended encoding. |
| Identifier.EncodeIdentifierIntended | download_tools/.ipynb_checkpoints/create_download_dictionaries-checkpoint.py:35-37 | Whenever `~` is the selected character, the intended result contains no `/`. |
| Identifier.IntendedAgreesUnlessV1BaseUrlAlone | download_tools/.ipynb_checkpoints/create_download_dictionaries-checkpoint.py:58-119 | The intended encoding and the code agree on every input, except when `version` is falsy and `baseURL` is the original service's URL. |
| PyStr.Find | download_tools/.ipynb_checkpoints/create_download_dictionaries-checkpoint.py:110 | `find` returns -1 only when there is no occurrence. Otherwise it returns an index where the pattern occurs, with no occurrence before it. |
| PyStr.FindChar | download_tools/.ipynb_checkpoints/create_download_dictionaries-checkpoint.py:110 | For one character, `find` is -1 exactly when the character is absent. Otherwise it is the character's first position. |
| PyStr.ReplaceAllAtStart | download_tools/.ipynb_checkpoints/create_download_dictionaries-checkpoint.py:89 | A `replace` whose pattern starts the string emits the replacement, then goes on after the occurrence. |
| PyStr.ReplaceAllAbsent | download_tools/.ipynb_checkpoints/create_download_dictionaries-checkpoint.py:89-101 | A `replace` whose non-empty pattern does not occur changes nothing. |
| PyStr.ReplaceAllCons | download_tools/.ipynb_checkpoints/create_download_dictionaries-checkpoint.py:89-101 | Wherever the first occurrence of a multi-character pattern stands, `replace` keeps what precedes it, emits the replacement, and goes on after the occurrence. |
| PyStr.ReplaceChar | download_tools/.ipynb_checkpoints/create_download_dictionaries-checkpoint.py:117 | Replacing one character by another keeps the length and maps the string character by character. |
| PyStr.ReplaceCharRemoves | download_tools/.ipynb_checkpoints/create_download_dictionaries-checkpoint.py:117 | After replacing a character by a different one, it no longer occurs. |
| PyStr.ReplaceCharNone | download_tools/.ipynb_checkpoints/create_download_dictionaries-checkpoint.py:117 | Replacing a character that does not occur changes nothing. |
| PyStr.ReplaceCharCons | download_tools/.ipynb_checkpoints/create_download_dictionaries-checkpoint.py:117 | The first occurrence of the character is replaced, and the replacement goes on in the rest. |
| PyStr.Split | download_tools/.ipynb_checkpoints/create_download_dictionaries-checkpoint.py:136 | `split` on one character always yields at least one piece. |
| PyStr.JoinSplit | download_tools/.ipynb_checkpoints/create_download_dictionaries-checkpoint.py:136 | Joining the pieces of `split` with the same separator gives back the string. |
| PyStr.SplitFirst | download_tools/.ipynb_checkpoints/create_download_dictionaries-checkpoint.py:174 | `split(sep)[0]` is a prefix without `sep`. It is the whole string or is followed by `sep`. |
| PyStr.SplitLast | download_tools/.ipynb_checkpoints/create_download_dictionaries-checkpoint.py:136 | `split(sep)[-1]` has no `sep`. It is a suffix that is the whole string or follows a `sep`. |
| PyDict.AssignSnoc | download_tools/.ipynb_checkpoints/create_download_dictionaries-checkpoint.py:139 | One more assignment `d[k] = v` updates exactly that key. |
| PyDict.AssignDomain | download_tools/.ipynb_checkpoints/create_download_dictionaries-checkpoint.py:139 | The keys of the filled dictionary are exactly the keys assigned at some step. |
| PyDict.AssignLastWins | download_tools/.ipynb_checkpoints/create_download_dictionaries-checkpoint.py:179 | A key holds the value of its last assignment. |
| PyDict.AssignValueOrigin | download_tools/.ipynb_checkpoints/create_download_dictionaries-checkpoint.py:179 | Every stored value comes from the last step that assigned its key. |
| DownloadDictionaries.LastSegment | download_tools/.ipynb_checkpoints/create_download_dictionaries-checkpoint.py:136 | `filename.split('/')[-1]` has no `/`. It is the whole name, or follows the name's last `/`. |
| DownloadDictionaries.CutoutKey | download_tools/.ipynb_checkpoints/create_download_dictionaries-checkpoint.py:174 | The cutout key has neither `/` nor `_`. It is a prefix of the last segment that is the whole segment or is followed by `_`. |
| DownloadDictionaries.CreateLightcurvesDict | download_tools/.ipynb_checkpoints/create_download_dictionaries-checkpoint.py:133-139 | The loop leaves the dictionary made by assigning `file -> url` for each listed file name in order. |
| DownloadDictionaries.LightcurveKeys | download_tools/.ipynb_checkpoints/create_download_dictionaries-checkpoint.py:133-136 | A key is in the lightcurve dictionary exactly when it is the last segment of a listed file name. |
| DownloadDictionaries.LightcurveValues | download_tools/.ipynb_checkpoints/create_download_dictionaries-checkpoint.py:136-139 | Every key has no `/`. Its URL is `https://data.csiro.au/dap/ws/v2/collections/<PID>/downloadfile?fileName=%2Flightcurves%2F<key>`, so the URL is determined by the key alone. |
| DownloadDictionaries.CreateCutoutDict | download_tools/.ipynb_checkpoints/create_download_dictionaries-checkpoint.py:164-181 | An unreachable folder fails. An entry without a file name fails the whole folder. Otherwise the loop leaves the dictionary made by assigning `key -> url` for each entry in order. |
| DownloadDictionaries.CutoutFailure | download_tools/.ipynb_checkpoints/create_download_dictionaries-checkpoint.py:164-174 | A folder fails exactly when its listing cannot be fetched, or some entry has no file name. |
| DownloadDictionaries.CutoutEmptyListing | download_tools/.ipynb_checkpoints/create_download_dictionaries-checkpoint.py:168-181 | A missing, null or empty `file` array gives an empty dictionary. |
| DownloadDictionaries.CutoutKeys | download_tools/.ipynb_checkpoints/create_download_dictionaries-checkpoint.py:171-179 | A key is in a folder's dictionary exactly when it is the cutout key of a listed file name. |
| DownloadDictionaries.CutoutValues | download_tools/.ipynb_checkpoints/create_download_dictionaries-checkpoint.py:174-179 | Every value is `https://data.csiro.au/dap/ws/v2/collections/<PID>/downloadfile?fileName=<filename>`, for the last listed file name whose key is that key. |
| DownloadDictionaries.BuildCutoutUrlIndex | download_tools/.ipynb_checkpoints/create_download_dictionaries-checkpoint.py:195-210 | Indexing each folder and applying `merged.update` in completion order, skipping failures, leaves the merge of the folders' outcomes. |
| DownloadDictionaries.MergeDomain | download_tools/.ipynb_checkpoints/create_download_dictionaries-checkpoint.py:203-209 | A key is in the merged index exactly when some successful outcome has it. |
| DownloadDictionaries.MergeLastWins | download_tools/.ipynb_checkpoints/create_download_dictionaries-checkpoint.py:192-193 | A key takes its value from the last successful outcome, in completion order, that has it. |
| DownloadDictionaries.MergeValueOrigin | download_tools/.ipynb_checkpoints/create_download_dictionaries-checkpoint.py:192-193 | Every merged key has the value of the last successful outcome, in completion order, that has it. |
| DownloadDictionaries.Successes | download_tools/.ipynb_checkpoints/create_download_dictionaries-checkpoint.py:205-208 | Exactly the successful outcomes are kept, each as often as it occurs, and no failure is kept. |
| DownloadDictionaries.SuccessesAppend | download_tools/.ipynb_checkpoints/create_download_dictionaries-checkpoint.py:205-208 | Taking the successes commutes with concatenation, so the successes keep their completion order. |
| DownloadDictionaries.MergeSkipsFailures | download_tools/.ipynb_checkpoints/create_download_dictionaries-checkpoint.py:205-208 | Failures neither contribute nor stop the fold: merging only the successes gives the same index. |
| DownloadDictionaries.MergeDisjoint | download_tools/.ipynb_checkpoints/create_download_dictionaries-checkpoint.py:203-206 | When only one successful outcome has a key, that key gets its value from that outcome in every completion order. |
| DownloadDictionaries.MergeOrderMatters | download_tools/.ipynb_checkpoints/create_download_dictionaries-checkpoint.py:192-193 | Two folders sharing a key give different merged values in the two completion orders. "Later folders overwrite earlier keys" therefore holds for completion order, not for folder order. |
| DownloadDictionaries.FolderListed | download_tools/.ipynb_checkpoints/create_download_dictionaries-checkpoint.py:168-179 | Every file name listed by a folder that succeeds gives its cutout key to that folder's dictionary. |
| DownloadDictionaries.FolderIndexed | download_tools/.ipynb_checkpoints/create_download_dictionaries-checkpoint.py:168-179 | Every key of a folder's dictionary is the cutout key of a file name that the folder lists. |
| DownloadDictionaries.FolderKeys | download_tools/.ipynb_checkpoints/create_download_dictionaries-checkpoint.py:164-181 | A folder's dictionary has a key exactly when the folder succeeds and lists a file name with that key. |
| DownloadDictionaries.IndexKeys | download_tools/.ipynb_checkpoints/create_download_dictionaries-checkpoint.py:164-210 | A key is in the merged index exactly when some folder that succeeds lists a file name with that key. |
| DownloadDictionaries.IndexValues | download_tools/.ipynb_checkpoints/create_download_dictionaries-checkpoint.py:164-210 | Every value in the merged index is the download URL of a file name with that key. That file name is listed by a folder that succeeds, and no folder that succeeds later lists a file name with the same key. |

## Left out

- The HTTP requests and JSON decoding are network I/O (lines 125-131, 145-146, 163-166, 232-234). The model takes the decoded `file` arrays as inputs. A folder whose request raises is the response `Unreachable`.
- The lightcurve listing is a `seq<string>` of file names. These crashes are not modelled: a missing `file` array at line 131 (`None` is not iterable), an entry without `filename` at line 131 (`KeyError`), and a JSON-null `filename` at line 136 (`None.split` raises `AttributeError`). The listing asks for one page of size 5 (line 125); the model takes whatever list that page holds.
- `find_cutout_folders` (lines 144-153) only indexes a fixed JSON shape of a remote response. The folder names serve only to build request URLs, which are not modelled.
- The `ThreadPoolExecutor`/`as_completed` scheduling (lines 196-203) is concurrency. The model takes the completion order as the order of the input sequence, and merges sequentially.
- The `[WARN]` message printed for a failed folder (line 208) is console output.
- Pickle persistence and the rest of the module-level script (lines 215-258) are file I/O. Only the `encodeIdentifier` call at line 227 is modelled, as `CollectionDoi`.
- download_tools/download_urls.py is a streaming HTTP download with no logic beyond I/O.
- Identifier.ExtractResolver: an input in which a listed pattern occurs again after the stripped prefix, or across its join with the rest, is characterised only by the definition of `Extract`, with no lemma of its own.
- Identifier.ExtractBrowse: the same holds for browse URLs. A resolver pattern anywhere in the input is also left to the definition of `Extract`.
- Identifier.Options: `version` is modelled as an integer. A non-integer `version` such as `True` or `1.0` compares equal to 1 in Python; it is not modelled.
- Identifier.GivenUrl: a `baseURL` that is not a string is not modelled.
- DownloadDictionaries.FileEntries: a `file` value that is falsy but not a list (`0`, `""`) is not modelled.
- DownloadDictionaries.FolderResponse: file entries that are not JSON objects are not modelled. A `filename` that is present but not a string is not modelled either.

## Findings

| source | as written | input that shows it | evidently intended | confidence | as-written member | corrected member |
|---|---|---|---|---|---|---|
| download_tools/.ipynb_checkpoints/create_download_dictionaries-checkpoint.py:51-52 | Slashes are replaced only `if version == 1` (line 116). With only `baseURL="https://ws.data.csiro.au/"` given, line 63 sets the encode character to `~`, but `version` stays `None`. The slashes therefore stay. | `encodeIdentifier("https://doi.org/10.4225/08/59475c67be7a4", baseURL="https://ws.data.csiro.au/")` gives `10.4225/08/59475c67be7a4`. | The docstring says `10.4225~08~59475c67be7a4`: the selected encode character is applied whatever selected it. | high (not executed) | Identifier.DocExampleV1BaseUrlKeepsSlashes | Identifier.EncodeIdentifierIntended |
