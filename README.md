# freezeyt extra files, modelled in Dafny

freezeyt freezes a web application into static files. Its configuration may
carry an `extra_files` mapping from URL paths to content that is not produced
by the application. `freezeyt/extra_files.py` expands that mapping into
directives `(url_path, "content", bytes)` and `(url_path, "path", path)`:

- a `str` value becomes its UTF-8 encoding;
- a `bytes` value is taken as it is;
- a mapping with `base64` becomes the decoded bytes, whatever else it holds;
- a mapping with `copy_from` is walked on disk;
- a mapping with neither raises `ValueError`;
- any other value raises `TypeError` naming its type.

The disk walk emits one `"path"` directive per non-directory entry. A child's
URL is the parent's URL with its trailing slashes stripped, then `/`, then the
child's name.

This project models that file:

- `basics.dfy` (module `Basics`): bytes, `Option`, `Result`.
- `utf8.dfy` (module `Utf8`): the UTF-8 encoding of section 3 of RFC 3629, a strict decoder, and ASCII encoding.
- `base64.dfy` (module `Base64`): the base 64 encoding of section 4 of RFC 4648, and the strict decoder that stands in for `base64.b64decode`.
- `extra_files.dfy` (module `ExtraFiles`): the configuration values, the file tree, the directives and the two generators, as recursive functions.
- `disk_walk_properties.dfy` (module `DiskWalkProperties`): what the disk walk produces.
- `extra_files_properties.dfy` (module `ExtraFilesProperties`): what the whole expansion produces.

Both Python functions are generators. The model returns an `Expansion`: the
directives yielded so far, plus the exception that ended the generator, if
any. So "what had been yielded before the error" is part of the model.

The file system is a parameter: a map from each `copy_from` string to a tree
of `File` and `Dir` nodes. A directory's children keep the order the listing
returns; they are not sorted.

Two behaviours of the code are easy to miss:

- A `copy_from` path that does not exist is not a directory, because `is_dir()` is false for it. The code therefore yields it as one `"path"` directive and raises no error during expansion (`CopyFromEntry`).
- Children are visited in listing order, not sorted by name.

## Model

| member | source | states |
|---|---|---|
| `ExtraFiles.Get` | freezeyt/extra_files.py:22 | `config.get(key)` is absent exactly when no item has that key; otherwise it returns a value stored under the key |
| `ExtraFiles.GetExtraFiles` | freezeyt/extra_files.py:22-23 | a configuration with no `extra_files` key, or with `extra_files` set to `None`, yields nothing and raises nothing |
| `ExtraFilesProperties.AttributeErrorExactly` | freezeyt/extra_files.py:22-24 | `AttributeError` (from `.items()`) is raised exactly when `extra_files` is present, is not `None` and is not a mapping |
| `ExtraFiles.ExpandEntries` | freezeyt/extra_files.py:24 | the loop over the entries never raises `AttributeError`; order and failure are in `ExpandEntriesAppend`, `ExpandEntriesSucceeded` and `FirstFailure` |
| `ExtraFiles.Expansion.Then` | freezeyt/extra_files.py:24 | running one part of the generator after another keeps what the first yielded; the whole succeeds if and only if both do; after a successful first part the whole raises whatever the second raises; a raise ends the generator, so nothing of the second part follows it |
| `ExtraFiles.TypeName` | freezeyt/extra_files.py:44 | `type(v).__name__` tells `NoneType`, `str`, `bytes` and `dict` apart, and is the value's own type name (`int`, `list`, …) for every other value; its use in the message is in `UnsupportedTypeError` |
| `ExtraFiles.B64Decode` | freezeyt/extra_files.py:31 | `base64.b64decode` raises `TypeError` for anything but text and bytes, and `ValueError` (or its subclass `binascii.Error`) for a bad text or bytes argument. Bytes are accepted exactly when the decoder accepts them, text exactly when it is ASCII and its ASCII octets are accepted; an accepted argument gives what the decoder returns for it |
| `ExtraFiles.PathOf` | freezeyt/extra_files.py:35 | `Path(v)` succeeds exactly for a string, and names that string; anything else is a `TypeError` |
| `ExtraFiles.ExpandEntry` | freezeyt/extra_files.py:25-45 | an entry that raises has yielded nothing |
| `ExtraFilesProperties.TextEntry` | freezeyt/extra_files.py:25-26 | a text value yields exactly one `"content"` directive at its URL, and its payload decodes as UTF-8 back to the text |
| `ExtraFilesProperties.BytesEntry` | freezeyt/extra_files.py:27-28 | a bytes value yields exactly one `"content"` directive at its URL holding the same bytes |
| `ExtraFilesProperties.Base64EntryRoundTrip` | freezeyt/extra_files.py:30-32 | a `base64` string that encodes some bytes yields exactly one `"content"` directive holding those bytes |
| `ExtraFilesProperties.Base64TextEntry` | freezeyt/extra_files.py:30-32 | a `base64` text yields the bytes `b` if and only if it is ASCII and, with the unused bits before its padding cleared, is the encoding of `b` (so `"aGl="` yields `b"hi"`, `"aG!k"` raises); whatever it raises is a `ValueError` |
| `ExtraFilesProperties.Base64EntryBadLength` | freezeyt/extra_files.py:30-32 | a `base64` string made only of alphabet characters (no padding) whose length is not a multiple of 4 raises `binascii.Error`, a `ValueError`, and yields nothing |
| `ExtraFilesProperties.Base64Precedence` | freezeyt/extra_files.py:30-35 | once `base64` is present, neither `copy_from` nor the disk has any effect on the entry |
| `ExtraFilesProperties.CopyFromEntry` | freezeyt/extra_files.py:33-35 | a `copy_from` string (without `base64`) never raises. It yields one directive per non-directory entry of the tree. A path that is not a directory, or does not exist, yields one `"path"` directive at the entry's URL |
| `ExtraFilesProperties.MissingKeyError` | freezeyt/extra_files.py:36-40 | the `ValueError` with the "must contain base64 or copy_from" message is raised if and only if the value is a mapping with neither key |
| `ExtraFilesProperties.UnsupportedTypeError` | freezeyt/extra_files.py:41-45 | the `TypeError` naming the type is raised if and only if the value is not text, bytes or a mapping |
| `ExtraFiles.UnsupportedTypeMessage` | freezeyt/extra_files.py:42-45 | the `TypeError` message ends with the value's type name |
| `ExtraFilesProperties.EntryUrlPrefix` | freezeyt/extra_files.py:24-35 | every directive an entry yields has a URL that starts with the entry's key stripped of trailing slashes |
| `ExtraFilesProperties.ExpandEntriesAppend` | freezeyt/extra_files.py:24 | entries are expanded in insertion order: the output for `a + b` is that of `a`, then (unless `a` raised) that of `b` |
| `ExtraFilesProperties.ExpandEntriesSucceeded` | freezeyt/extra_files.py:24-45 | the expansion raises nothing if and only if no entry raises, and then it is the entries' directives concatenated in order |
| `ExtraFilesProperties.FirstFailure` | freezeyt/extra_files.py:24-45 | the expansion raises the exception of the first entry that raises, having yielded exactly what the earlier entries yielded |
| `ExtraFilesProperties.ExampleText` | freezeyt/extra_files.py:25-26 | `{"/a.txt": "hi"}` yields `("/a.txt", "content", b"hi")` |
| `ExtraFilesProperties.ExampleBase64` | freezeyt/extra_files.py:30-32 | `{"/b.bin": {"base64": "aGk="}}` yields `("/b.bin", "content", b"hi")` |
| `ExtraFilesProperties.ExampleCopyFrom` | freezeyt/extra_files.py:33-35 | `{"/dir": {"copy_from": "static"}}`, where `static` holds only `x.txt`, yields `("/dir/x.txt", "path", static/x.txt)` |
| `ExtraFiles.CopyFrom` | freezeyt/extra_files.py:34-35 | every directive of a `copy_from` entry is a `"path"` directive below the `copy_from` path; count and shape are in `CopyFromEntry` |
| `ExtraFiles.FromDisk` | freezeyt/extra_files.py:47-55 | the walk yields only `"path"` directives, each for the walked path or something below it; which entries and in what order is in `FromDiskListing` and `FromDiskExactlyFiles` |
| `ExtraFiles.FromDiskChildren` | freezeyt/extra_files.py:49-53 | the loop over `iterdir()` yields only `"path"` directives below the directory; its order is in `FromDiskChildrenAppend` |
| `ExtraFiles.ChildUrl` | freezeyt/extra_files.py:51 | a child URL is the parent URL without all of its trailing slashes (a prefix that does not end in `/`, followed in the parent only by `/`), then a single `/`, then the child's name |
| `ExtraFiles.RStripSlash` | freezeyt/extra_files.py:51 | `rstrip('/')` gives the longest prefix that does not end in `/`; everything it removes is `/` |
| `DiskWalkProperties.ChildUrlOfSlashes` | freezeyt/extra_files.py:51 | the child URL has exactly one `/` before the name: `"/d//"` and `"/d"` both give `"/d/x"` |
| `DiskWalkProperties.FromDiskCount` | freezeyt/extra_files.py:47-55 | the walk yields as many directives as the tree has non-directory entries, so empty directories contribute nothing |
| `DiskWalkProperties.FromDiskChildrenAppend` | freezeyt/extra_files.py:49-53 | children are walked in listing order: the directives of earlier children come before those of later ones |
| `DiskWalkProperties.FromDiskListing` | freezeyt/extra_files.py:47-55 | the i-th directive is the `"path"` directive of the i-th non-directory entry in depth-first listing order. Its URL is reached by descending from the prefix, and its path is the walked path extended by the entry's relative path. A non-directory root yields itself at the unchanged URL |
| `DiskWalkProperties.FromDiskUrls` | freezeyt/extra_files.py:49-53 | in a directory, each directive's URL is the prefix without trailing slashes, then `/`, then the entry's relative path joined by `/` |
| `DiskWalkProperties.FromDiskUrlPrefix` | freezeyt/extra_files.py:50-51 | every directive's URL starts with the prefix stripped of its trailing slashes |
| `DiskWalkProperties.LeavesAreFiles` | freezeyt/extra_files.py:48-55 | every entry the walk yields for is a non-directory entry of the tree; no directive is ever yielded for a directory |
| `DiskWalkProperties.FilesAreLeaves` | freezeyt/extra_files.py:48-55 | every non-directory entry of the tree gets a directive |
| `DiskWalkProperties.FromDiskExactlyFiles` | freezeyt/extra_files.py:47-55 | a relative path gets a directive if and only if it names a non-directory entry, and the number of directives equals the number of such entries |
| `Utf8.EncodeScalar` | freezeyt/extra_files.py:26 | one to four octets, a single octet exactly for ASCII, and continuation octets after the first |
| `Utf8.Encode` | freezeyt/extra_files.py:26 | the UTF-8 encoding of a text is between one and four octets per character |
| `Utf8.DecodeEncode` | freezeyt/extra_files.py:26 | decoding the UTF-8 encoding of any text gives the text back |
| `Utf8.EncodeAscii` | freezeyt/extra_files.py:31 | a text is accepted as base 64 input exactly when it is 7-bit ASCII, and then its octets are its character codes |
| `Base64.Decode` | freezeyt/extra_files.py:31 | a decoded input has 4 characters for every 3 output octets, counting a final partial group as a full one |
| `Base64.DecodeEncode` | freezeyt/extra_files.py:31 | decoding the base 64 encoding of any octet string gives it back |
| `Base64.DecodeIsInverse` | freezeyt/extra_files.py:31 | the decoder accepts exactly the encodings, up to the unused bits before the padding: `s` decodes to `b` if and only if `s` with those bits cleared is the encoding of `b`. So every input that is not such an encoding is rejected |
| `Base64.DecodeOfCanonical` | freezeyt/extra_files.py:31 | on input whose unused bits are zero, decoding is the exact inverse of encoding: `s` decodes to `b` if and only if `s` is the encoding of `b` |
| `Base64.DecodeOfClearUnusedBits` | freezeyt/extra_files.py:31 | like `b64decode`, the decoder ignores the unused bits: `"aGl="` and `"aGk="` decode alike |
| `Base64.ClearUnusedBitsCanonical` | freezeyt/extra_files.py:31 | clearing the unused bits gives a canonical input, and changes an input if and only if it is not canonical |
| `Base64.EncodeIsAscii` | freezeyt/extra_files.py:31 | a base 64 encoding consists of alphabet and pad characters only, all of them 7-bit ASCII |

## Left out

- Laziness of the generators: the output is a finite sequence, and stopping the iteration early has no counterpart in the model. Directives yielded before an exception are kept.
- Real file-system access is out: `is_dir`, `iterdir`, permission and other OS errors, and symbolic-link cycles. The tree is finite, given as a parameter, and never fails to list.
- Python's `pathlib` normalisation of the `copy_from` string is out: a path is the string plus the child names below it.
- `copy_from` values that are `os.PathLike` objects are out: only a string names a path, and any other value raises `TypeError`.
- Text values are Unicode scalar values. A Python `str` holding a lone surrogate, for which `encode()` raises `UnicodeEncodeError`, cannot be expressed.
- `base64.b64decode` in its default non-validating mode discards characters outside the alphabet and tolerates some padding irregularities. The model decodes strictly per section 4 of RFC 4648; like Python, it does not reject non-zero pad bits.
- Inputs to `base64.b64decode` other than `str` and `bytes` (such as `bytearray` or `memoryview`) raise `TypeError` in the model.
- The exact wording of the exceptions raised inside the standard library is out: `b64decode`'s `TypeError` and `ValueError`, `Path`'s `TypeError`, and the `AttributeError` of `.items()`. It varies between Python versions; only their kind is meant.
- `Base64EntryBadLength` is stated only for strings of alphabet characters. With other characters, Python's non-validating decoder may accept a string whose length is not a multiple of 4 (`"aGk=="` and `"aGk=\n"` give `b"hi"`), while the strict model raises. Which other inputs raise `binascii.Error` is stated for the model's decoder by `Base64.DecodeIsInverse`.
- A `Mapping` is a sequence of pairs and may hold the same key twice, which a Python dict cannot. `Get` takes the first pair with the key, and `ExpandEntries` expands every pair. For dict-shaped input (distinct keys) both agree with Python.
- Keys of `extra_files` are strings. A non-string key is not modelled; `rstrip` would fail on it.
- Every mapping reports the type name `dict`, whatever mapping class it is.
- `freezeyt_blog/app.py` is not part of this model. It is Flask routing, file reading and template rendering.
