# indj core, modelled in Dafny

indj builds an index of the names a Django source tree defines and looks them
up again. This project models the core of that tool:

- the index record `DjangoIndex` (`indj/index.py`): its fields, `names`,
  `validate`, `is_valid`, `to_dict`, and the checks `save` makes before it
  writes (the write itself is not modelled);
- the import-path helpers of `DjangoSrc`: `_file_is_magic`, `_get_import_path`
  and `_get_module_import_path`;
- `create_index_data`, the loop that folds (name, import path) entries into
  the index dict;
- the version helpers of `indj/utils.py`: `version_as_string`,
  `data_filepath_from_version` and `version_as_tuple`;
- `LookupHandler.get_filepath` (`indj/handlers.py`), the first-match search for
  a version's data file over the data directories.

The file system is a set of the paths that exist. Paths handed to
`os.path.abspath` are given as the segments of the normalised absolute path
that call returns. The Python library functions the code relies on are written
out: `str.join`, `str.replace`, `str.isdigit` and `int` on ASCII digits,
`re.split(r'[\.-]', ...)`, `sorted` on strings, and `posixpath.basename`,
`join`, `splitext`, `dirname` and `relpath`.

Files: `wrappers.dfy` (Option, Result, Outcome), `exceptions.dfy` (the
exception classes of `indj/exceptions.py` and the built-in `TypeError` and
`ValueError` as one error type), `strings.dfy`, `ordering.dfy`, `paths.dfy`
(the library functions above), `utils.dfy`, `index.dfy` and `handlers.dfy`
(the three core files).

`DjangoIndex` and `LookupHandler` are classes whose fields the methods read;
`create_index_data` and `get_filepath` are methods with loops, each proved
equal to a function (`IndexDataOf`, `FindDataFile`) whose properties are
stated in its ensures or proved as lemmas. `create_index_data` is also proved to agree with an independent
reference: for each name, the paths paired with it in the stream
(`PathsOf`), each kept once at its first occurrence (`Dedup`).

Points of the code's behaviour that the model keeps:

- `validate` tests truthiness, so it also rejects an empty version tuple
  (`indj/index.py:26`), not only `None`.
- `validate` checks that the data is a dict last. A truthy non-dict with no
  version therefore reports the missing version (`indj/index.py:24-31`).
- `save` does not validate. It builds the file path from the version before
  it looks at the directory, so a `None` version raises `TypeError` first
  (`indj/index.py:46-52`).
- The errors are the repository's own classes, `DjangoIndexError` and
  `LookupHandlerError`.

## Model

| member | source | states |
|---|---|---|
| Utils.PartText | indj/utils.py:13 | a non-negative number prints as canonical decimal digits that read back as the number, a negative one as `-` and the digits of its magnitude, a label as itself |
| Utils.VersionAsString | indj/utils.py:12-13 | the empty tuple gives the empty string |
| Utils.VersionAsStringExample | tests/test_utils.py:41-43 | `(1, 2, 3, 'final', 4)` gives `1-2-3-final-4` |
| Utils.DataFilepathFromVersion | indj/utils.py:16-21 | the path is the directory's text, then one separator unless the directory is empty or already ends in `/`, then the data file name |
| Utils.DataFilepathExample | tests/test_utils.py:46-49 | `/foobar` and `(1, 2, 3, 'final', 4)` give `/foobar/django-1-2-3-final-4.json` |
| Utils.DataFilepathInjective | indj/utils.py:16-21 | two versions share a data file in one directory only when their hyphenated texts are equal |
| Utils.DataFilepathBasename | indj/utils.py:16-21 | when the version's text holds no `/`, the data file lies directly in the directory and is named `django-<version>.json` |
| Utils.SplitFields | indj/utils.py:33 | `re.split` on `.` and `-` gives one more field than there are separators, and no field holds a separator |
| Utils.SplitFieldsJoin | indj/utils.py:33 | joining the fields with `-` gives the input with every `.` written as `-` |
| Utils.VersionAsTuple | indj/utils.py:32-35 | the tuple is never empty, its numbers are non-negative, and its labels hold no separator and are not all digits: every parsed tuple is one `version_as_string` can print and parse back |
| Utils.VersionAsTupleParts | indj/utils.py:32-35 | the tuple is never empty and has one part per field; a part is an int exactly when its field is all digits, and then its value is the field's decimal value; any other part is a label holding its field's text unchanged; a digit field without a leading zero prints back unchanged |
| Utils.VersionAsTupleReplace | indj/utils.py:33 | `.` and `-` are interchangeable in the typed version |
| Utils.VersionTextRoundTrip | indj/utils.py:32-35 | printing the parsed tuple gives the typed text with `.` written as `-`, when no number has a leading zero |
| Utils.LeadingZeroLost | indj/utils.py:34-35 | `1.02` parses to `(1, 2)` and prints as `1-2`: the leading-zero condition above is needed |
| Utils.VersionAsTupleStable | indj/utils.py:32-35 | printing a parsed version and parsing it again gives the same tuple |
| Utils.VersionTupleRoundTrip | indj/utils.py:32-35 | a non-empty tuple of non-negative ints and separator-free, non-numeric labels parses back from its printed text (the empty tuple prints as `""`, which parses as `('',)`) |
| Utils.EmptyVersionNotRestored | indj/utils.py:32-35 | the empty tuple prints as `""`, which parses as `('',)`: the round trip above needs a non-empty tuple |
| Utils.VersionAsTupleExample | tests/test_main.py:37-38 | `1-2-beta-4` gives `(1, 2, 'beta', 4)` |
| Utils.DottedVersionExample | tests/test_main.py:34-35 | `1.2.3-final.4` gives `(1, 2, 3, 'final', 4)` |
| Index.DjangoIndex.constructor | indj/index.py:13-17 | the index holds the given data, version and creation date |
| Index.DjangoIndex.Names | indj/index.py:19-21 | `names` holds every key of the data exactly once, in ascending string order |
| Ordering.SortedKeysUnique | indj/index.py:21 | only one strictly ascending sequence holds exactly the keys, so `names` is determined by the keys |
| Index.DjangoIndex.ToDict | indj/index.py:33-36 | the document carries the index's data, version and creation date |
| Index.DjangoIndex.Validate | indj/index.py:23-31 | each message is raised exactly when its check is the first to fail, in the order empty data, version, created date, dict type; it passes exactly when the document is well formed |
| Index.DjangoIndex.IsValid | indj/index.py:38-44 | true exactly when `validate` raises nothing, that is when the document is well formed |
| Index.SaveDecision | indj/index.py:46-58 | a `None` version raises TypeError; otherwise a missing directory is refused first, then an existing file without `overwrite`; otherwise the whole document is written to the version's data file |
| Index.DjangoIndex.Save | indj/index.py:46-58 | the checks made step by step decide exactly as `SaveDecision` on the index's document |
| Index.SaveTwice | indj/index.py:51-55 | a second save without `overwrite` is refused with 'Output file already exists'; with `overwrite` it writes the same file again |
| Index.FileIsMagic | indj/index.py:69-70 | a path is magic exactly when its basename starts with `__` and ends with `__.py` |
| Index.MagicInDir | indj/index.py:69-70 | inside a directory, only the file name decides whether a file is magic |
| Index.FileIsMagicExamples | tests/test_index.py:145-149 | `__init__.py` is a magic name; `__foo.py`, `__foo__.txt` and `boshlol.py` are not (with `MagicInDir`, in any directory) |
| Index.GetImportPath | indj/index.py:72-75 | a name already rooted at `django` is kept; any other comes right after the module path and one `.`, with nothing else between; the name always ends the result, and a rooted module gives a rooted result |
| Index.GetImportPathIdempotent | indj/index.py:72-75 | resolving an already resolved name again, against any module, leaves it unchanged |
| Index.GetImportPathExamples | tests/test_index.py:136-143 | `django` and `django.things` are kept; `thing` under `django.things` gives `django.things.thing` |
| Index.ModuleSegments | indj/index.py:83-84 | the module path is the file itself or its directory; for a path of proper segments, it is the directory exactly when the last segment is a magic name |
| Index.RelativeModule | indj/index.py:87-91 | the relative module path is never `.` or `..` |
| Index.DottedImportPath | indj/index.py:93-95 | the result is rooted at `django`, and is bare `django` exactly when the relative path is empty |
| Index.GetModuleImportPath | indj/index.py:77-95 | every module import path is rooted at `django` |
| Index.DottedRelpath | indj/index.py:87-95 | a relative path of segments, extension dropped, is never `.`, `..` or empty, and turns into its segments joined by `.` |
| Index.ModuleImportPathOfModule | indj/index.py:77-95 | a non-magic file below the root maps to `django.` and its relative segments joined by `.`, extension dropped |
| Index.ModuleImportPathOfPackage | indj/index.py:81-95 | a magic file maps to its directory: `django` for the root, else `django.` and the directory's dotted path, with the extension of its last segment dropped |
| Index.ModuleImportPathOfParentPackage | indj/index.py:90-91 | a magic file in the root's parent gives `..`, which also maps to `django` |
| Index.ModuleImportPathExample | tests/test_index.py:151-154 | `foobar/models.py` below the root maps to `django.foobar.models` |
| Index.PackageImportPathExample | tests/test_index.py:156-159 | `foobar/__init__.py` below the root maps to `django.foobar` |
| Index.RootPackageImportPathExample | tests/test_index.py:161-164 | the root's `__init__.py` maps to `django` |
| Index.CreateIndexData | indj/index.py:142-149 | the loop builds the fold of the whole stream |
| Index.IndexDataOf | indj/index.py:142-149 | every list in the dict is non-empty and has no repeated path, and every path in a name's list was paired with that name in the stream |
| Index.IndexDataKeys | indj/index.py:142-149 | the keys of the dict are exactly the names in the stream |
| Index.IndexDataMatchesReference | indj/index.py:142-149 | the keys are exactly the names in the stream, and each list is that name's paths without repeats, in first-seen order |
| Index.IndexDataEntries | indj/index.py:143-148 | each list has no duplicates, holds exactly the paths paired with its name, and keeps them in first-occurrence order |
| Index.IndexDataEmpty | indj/index.py:142-149 | the dict is empty exactly when the stream is |
| Index.BuiltIndexIsWellFormed | indj/index.py:138-149 | a non-empty stream with a version and a creation date gives an index that validates |
| Index.IndexDataExamples | tests/test_index.py:240-274 | one entry, a second path for a name, and a repeated path give the dicts the test suite expects |
| Index.UnpackTriples | indj/index.py:143 | unpacking succeeds exactly when every entry has three items and keeps the first two of each; otherwise it raises ValueError with the message for the first entry that does not have three |
| Index.CreateIndexDataAsWritten | indj/index.py:138-149 | as written, the fold succeeds exactly when every entry has three items |
| Index.PairsFailToUnpack | tests/test_index.py:240-245 | the pair the test suite feeds in raises ValueError as written |
| Index.SingleItemFailsToUnpack | indj/index.py:143 | an entry of one item raises ValueError with Python 3.4's singular message, `need more than 1 value to unpack` |
| Handlers.NoDataFileMessage | indj/handlers.py:19-21 | the message starts with the fixed text, ends with a backtick, and the version's hyphenated text sits between |
| Handlers.FindDataFile | indj/handlers.py:14-21 | a file is found exactly when some directory holds the version's data file; it is that file for the first such directory, it exists, and no earlier directory has one; otherwise LookupHandlerError names the version |
| Handlers.LookupHandler.constructor | indj/handlers.py:10-12 | the handler holds the given version and data directories |
| Handlers.LookupHandler.GetFilepath | indj/handlers.py:14-21 | the loop over the directories returns what `FindDataFile` describes |
| Handlers.SavedIndexIsFound | indj/handlers.py:15-18 | a data file just saved into one of the data directories is found, and is the one returned when that directory comes first |

## Findings

| source | as written | input that shows it | evidently intended | confidence | as-written member | corrected member |
|---|---|---|---|---|---|---|
| indj/index.py:143 | `create_index_data` unpacks three items from each entry | the entry `('Thing', 'foobars.Thing')` of tests/test_index.py:240-245, the shape `_get_definitions_from_file` builds (indj/index.py:101-103), raises ValueError | each entry is a (name, import path) pair | not executed | Index.PairsFailToUnpack | Index.IndexDataMatchesReference |

The corrected fold is `IndexDataOf`, built by `CreateIndexData` over
(name, import path) pairs; the rest of the model uses it.

## Left out

- Index.DjangoIndex.Save: takes the output directory as a parameter. The source reads `settings.JSON_OUTPUT_DIRECTORY`, which `Settings` does not define (indj/config.py:22 defines `OUTPUT_DATA_DIRECTORY`, which the tests set), so as written the attribute lookup fails before any check.
- Index.DjangoIndex.Save: the JSON write and `json_serialize` are not modelled; the result names the file and the document that would be written.
- Index.DjangoIndex.Names: requires the data to be a dict; `keys()` on `None` or a list raises AttributeError, which is not modelled.
- A version is a tuple of parts. The test fixture's string version `'3.0.5'`, which `version_as_string` would spell out character by character, is not modelled.
- Index.GetModuleImportPath: takes the segments of the absolute paths. `os.path.abspath` depends on the working directory and is not modelled.
- Index.CreateIndexData: the `if not generator` branch (file discovery plus `definitions_generator`) is not modelled; the stream is a parameter. `definitions_generator` also yields one list per file rather than one entry per definition.
- Utils.VersionAsTuple: `str.isdigit` is modelled on ASCII digits. Other Unicode digits, which `int` may reject, are not modelled.
- `_get_definitions_from_file`: it reads a file and calls `jedi.defined_names`, a foreign library.
- `get_filepaths` and `join_regexp`: they depend on `os.walk`, `fnmatch` and the regular-expression engine.
- `get_version`: it reads a file and `eval`s its contents.
- `DjangoJson`: it loads JSON and parses dates with `strptime`.
- The exact, fuzzy and substring match strategies: no code for them exists in `LookupHandler`, although indj/main.py:77 calls a `lookup` method.
- `get_django_json`, `get_django_index` and `CreationHandler`: they only construct objects and read the clock.
- `indj/main.py` and `indj/config.py`: command-line parsing, output and environment probing.
