/**
  The extra-files expander of freezeyt (`freezeyt/extra_files.py`).

  `GetExtraFiles` turns the `extra_files` entry of a configuration into the
  directives `(url_path, "content", bytes)` and `(url_path, "path", path)` that
  the freezer later writes out; `FromDisk` flattens a `copy_from` directory
  into one `"path"` directive per non-directory entry.

  Both Python functions are generators. A generator that raises has
  already handed out everything it yielded before the exception, so an
  expansion here is the list of directives produced plus the exception, if any.
 */
module ExtraFiles {
  import opened Basics
  import Utf8
  import Base64

  // ---------------------------------------------------------------------------
  // Configuration values
  // ---------------------------------------------------------------------------

  /**
    The Python values a configuration can hold, as far as the expander tells
    them apart: `None`, `str`, `bytes`, a mapping (in insertion order) and any
    other type, known only by its type name.
   */
  datatype Value =
    | NoneValue
    | Text(text: string)
    | Bytes(data: seq<Byte>)
    | Mapping(items: seq<(string, Value)>)
    | Other(typeName: string)

  /** `type(v).__name__`: each built-in type the expander tells apart has a name of its own. */
  function TypeName(v: Value): (r: string)
    ensures v.Other? ==> r == v.typeName
    ensures !v.Other? ==>
      (r == "NoneType" <==> v.NoneValue?) && (r == "str" <==> v.Text?) &&
      (r == "bytes" <==> v.Bytes?) && (r == "dict" <==> v.Mapping?)
  {
    match v
    case NoneValue => "NoneType"
    case Text(_) => "str"
    case Bytes(_) => "bytes"
    case Mapping(_) => "dict"
    case Other(name) => name
  }

  /** `mapping.get(key)`: the value stored under `key`, if any. */
  function Get(items: seq<(string, Value)>, key: string): (r: Option<Value>)
    ensures r.None? <==> forall i :: 0 <= i < |items| ==> items[i].0 != key
    ensures r.Some? ==> (key, r.value) in items
  {
    if items == [] then None
    else if items[0].0 == key then Some(items[0].1)
    else Get(items[1..], key)
  }

  // ---------------------------------------------------------------------------
  // The file system, seen through `Path.is_dir()` and `Path.iterdir()`
  // ---------------------------------------------------------------------------

  /**
    A directory entry: a non-directory (a regular file or anything else that
    is not a directory) or a directory whose children are listed in the order
    `iterdir()` returns them, which is not assumed to be sorted.
   */
  datatype Node = File(name: string) | Dir(name: string, children: seq<Node>)

  /** What each `copy_from` string refers to; an absent key does not exist. */
  type FileSystem = map<string, Node>

  /** A path on disk: the `copy_from` string and the child names walked below it. */
  datatype FsPath = FsPath(root: string, parts: seq<string>) {
    /** `path / name` */
    function Child(name: string): FsPath {
      FsPath(root, parts + [name])
    }
  }

  // ---------------------------------------------------------------------------
  // Directives, exceptions and expansions
  // ---------------------------------------------------------------------------

  datatype Payload = Content(bytes: seq<Byte>) | Path(path: FsPath)

  /** `(url_path, kind, payload)` */
  datatype Directive = Directive(urlPath: string, payload: Payload) {
    function Kind(): string {
      if payload.Content? then "content" else "path"
    }
  }

  /** The exceptions the expander raises or lets through. */
  datatype Failure =
    | ValueError(message: string)
    | TypeError(message: string)
    | AttributeError(message: string)
      /** `binascii.Error` from `base64.b64decode`. */
    | Base64Error
  {
    /** `binascii.Error` is a subclass of `ValueError`. */
    predicate IsValueError() {
      ValueError? || Base64Error?
    }
  }

  /** The directives a generator yielded, then the exception that ended it, if any. */
  datatype Expansion = Expansion(emitted: seq<Directive>, failure: Option<Failure>) {
    predicate Succeeded() {
      failure.None?
    }

    /** Runs `next` after this one; a failure stops everything after it. */
    function Then(next: Expansion): (r: Expansion)
      ensures emitted <= r.emitted
      ensures r.Succeeded() <==> Succeeded() && next.Succeeded()
      ensures Succeeded() ==> r.emitted[|emitted|..] == next.emitted
      ensures Succeeded() ==> r.failure == next.failure
      ensures !Succeeded() ==> r == this
    {
      if failure.Some? then this else Expansion(emitted + next.emitted, next.failure)
    }
  }

  function Emit(d: Directive): Expansion {
    Expansion([d], None)
  }

  function Raise(f: Failure): Expansion {
    Expansion([], Some(f))
  }

  const MissingKeyMessage: string := "a mapping in extra_files must contain " + "\"base64\" or \"copy_from\""

  /** The message of the `TypeError` for an unsupported value, which ends with the type's name. */
  function UnsupportedTypeMessage(typeName: string): (r: string)
    ensures |r| > |typeName| && r[|r| - |typeName|..] == typeName
  {
    "extra_files values must be bytes, str or mappings; got a " + typeName
  }

  // ---------------------------------------------------------------------------
  // get_extra_files_from_disk
  // ---------------------------------------------------------------------------

  /** `s.rstrip('/')`: `s` without its trailing slashes, all of them. */
  function RStripSlash(s: string): (r: string)
    ensures r <= s
    ensures r == [] || r[|r| - 1] != '/'
    ensures forall i :: |r| <= i < |s| ==> s[i] == '/'
    decreases |s|
  {
    if s != [] && s[|s| - 1] == '/' then RStripSlash(s[..|s| - 1]) else s
  }

  /**
    The URL of a child: `url_part.rstrip('/') + '/' + name`. It ends in a
    single `/` and the name, after a prefix of `url` that has no trailing slash.
   */
  function ChildUrl(url: string, name: string): (r: string)
    ensures |r| > |name| && r[|r| - |name|..] == name && r[|r| - |name| - 1] == '/'
    ensures var stem := r[..|r| - |name| - 1];
      stem <= url && (stem == [] || stem[|stem| - 1] != '/') && (forall i :: |stem| <= i < |url| ==> url[i] == '/')
  {
    RStripSlash(url) + "/" + name
  }

  /** Every directive is a `"path"` directive for `path` or for something below it. */
  predicate AllBelow(ds: seq<Directive>, path: FsPath) {
    forall i :: 0 <= i < |ds| ==>
      ds[i].payload.Path? && ds[i].payload.path.root == path.root && path.parts <= ds[i].payload.path.parts
  }

  /**
    `get_extra_files_from_disk(url, path)` where `node` is what `path` is:
    a non-directory gives one `"path"` directive at `url`; a directory gives,
    child by child in listing order, the directives of the child at the
    child's URL, and none for itself.
   */
  function FromDisk(url: string, path: FsPath, node: Node): (r: seq<Directive>)
    ensures AllBelow(r, path)
    decreases node
  {
    match node
    case File(_) => [Directive(url, Path(path))]
    case Dir(_, children) => FromDiskChildren(url, path, children)
  }

  /** The loop over `path.iterdir()`. */
  function FromDiskChildren(url: string, path: FsPath, children: seq<Node>): (r: seq<Directive>)
    ensures AllBelow(r, path)
    decreases children
  {
    if children == [] then []
    else
      var c := children[0];
      FromDisk(ChildUrl(url, c.name), path.Child(c.name), c) + FromDiskChildren(url, path, children[1..])
  }

  /**
    `get_extra_files_from_disk(url, Path(root))`. A path that does not exist
    is not a directory (`is_dir()` is false), so it is yielded as a `"path"`
    directive like a regular file.
   */
  function CopyFrom(url: string, root: string, fs: FileSystem): (r: seq<Directive>)
    ensures forall i :: 0 <= i < |r| ==> r[i].payload.Path? && r[i].payload.path.root == root
  {
    if root in fs then FromDisk(url, FsPath(root, []), fs[root])
    else [Directive(url, Path(FsPath(root, [])))]
  }

  // ---------------------------------------------------------------------------
  // get_extra_files
  // ---------------------------------------------------------------------------

  /**
    `base64.b64decode(v)`: text must be ASCII, bytes are taken as they are;
    any other argument is a `TypeError`, and a bad argument of the right type
    a `ValueError`.
   */
  function B64Decode(v: Value): (r: Result<seq<Byte>, Failure>)
    ensures !(v.Text? || v.Bytes?) ==> r.Err? && r.error.TypeError?
    ensures (v.Text? || v.Bytes?) && r.Err? ==> r.error.IsValueError()
    ensures v.Bytes? ==> (r.Ok? <==> Base64.Decode(v.data).Some?)
    ensures v.Bytes? && r.Ok? ==> Base64.Decode(v.data) == Some(r.value)
    ensures v.Text? ==> (r.Ok? <==> Utf8.EncodeAscii(v.text).Some? && Base64.Decode(Utf8.EncodeAscii(v.text).value).Some?)
    ensures v.Text? && r.Ok? ==> Base64.Decode(Utf8.EncodeAscii(v.text).value) == Some(r.value)
    ensures v.Text? && r.Ok? ==> forall i :: 0 <= i < |v.text| ==> (v.text[i] as int) < 0x80
  {
    match v
    case Text(t) =>
      (match Utf8.EncodeAscii(t)
       case None => Err(ValueError("string argument should contain only ASCII characters"))
       case Some(b) => DecodeBytes(b))
    case Bytes(b) => DecodeBytes(b)
    case _ => Err(TypeError("argument should be a bytes-like object or ASCII string, not '" + TypeName(v) + "'"))
  }

  function DecodeBytes(b: seq<Byte>): Result<seq<Byte>, Failure> {
    match Base64.Decode(b)
    case None => Err(Base64Error)
    case Some(out) => Ok(out)
  }

  /** `Path(v)`: only a string names a path; anything else is a `TypeError`. */
  function PathOf(v: Value): (r: Result<string, Failure>)
    ensures r.Ok? <==> v.Text?
    ensures r.Ok? ==> r.value == v.text
    ensures r.Err? ==> r.error.TypeError?
  {
    if v.Text? then Ok(v.text)
    else Err(TypeError("argument should be a str or an os.PathLike object, not '" + TypeName(v) + "'"))
  }

  /** One iteration of the loop over `extra_files_config.items()`. */
  function ExpandEntry(url: string, v: Value, fs: FileSystem): (r: Expansion)
    ensures r.failure.Some? ==> r.emitted == []
  {
    match v
    case Text(t) => Emit(Directive(url, Content(Utf8.Encode(t))))
    case Bytes(b) => Emit(Directive(url, Content(b)))
    case Mapping(m) =>
      if Get(m, "base64").Some? then
        match B64Decode(Get(m, "base64").value)
        case Err(f) => Raise(f)
        case Ok(b) => Emit(Directive(url, Content(b)))
      else if Get(m, "copy_from").Some? then
        match PathOf(Get(m, "copy_from").value)
        case Err(f) => Raise(f)
        case Ok(root) => Expansion(CopyFrom(url, root, fs), None)
      else
        Raise(ValueError(MissingKeyMessage))
    case _ => Raise(TypeError(UnsupportedTypeMessage(TypeName(v))))
  }

  /** The loop over `extra_files_config.items()`, in insertion order. */
  function ExpandEntries(items: seq<(string, Value)>, fs: FileSystem): (r: Expansion)
    ensures r.failure.Some? ==> !r.failure.value.AttributeError?
    decreases |items|
  {
    if items == [] then Expansion([], None)
    else ExpandEntry(items[0].0, items[0].1, fs).Then(ExpandEntries(items[1..], fs))
  }

  /**
    `get_extra_files(config)`. A missing or `None` `extra_files` yields
    nothing; a value without `.items()` raises `AttributeError`.
   */
  function GetExtraFiles(config: seq<(string, Value)>, fs: FileSystem): (r: Expansion)
    ensures Get(config, "extra_files") in {None, Some(NoneValue)} ==> r == Expansion([], None)
  {
    match Get(config, "extra_files")
    case None => Expansion([], None)
    case Some(NoneValue) => Expansion([], None)
    case Some(Mapping(items)) => ExpandEntries(items, fs)
    case Some(v) => Raise(AttributeError("'" + TypeName(v) + "' object has no attribute 'items'"))
  }
}
