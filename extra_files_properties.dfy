/**
  What `get_extra_files` produces: one directive per text, bytes or `base64`
  entry, the walk of the disk for a `copy_from` entry, the two errors the
  function raises itself, and the order of the output.
 */
module ExtraFilesProperties {
  import opened Basics
  import opened ExtraFiles
  import Utf8
  import Base64
  import DiskWalkProperties

  // ---------------------------------------------------------------------------
  // One entry
  // ---------------------------------------------------------------------------

  /** A text value becomes one `"content"` directive holding its UTF-8 encoding. */
  lemma TextEntry(url: string, t: string, fs: FileSystem)
    ensures var r := ExpandEntry(url, Text(t), fs);
      r.Succeeded() && |r.emitted| == 1 &&
      r.emitted[0].urlPath == url && r.emitted[0].Kind() == "content" &&
      Utf8.Decode(r.emitted[0].payload.bytes) == Some(t)
  {
    Utf8.DecodeEncode(t);
  }

  /** A bytes value becomes one `"content"` directive holding exactly those bytes. */
  lemma BytesEntry(url: string, b: seq<Byte>, fs: FileSystem)
    ensures ExpandEntry(url, Bytes(b), fs) == Expansion([Directive(url, Content(b))], None)
  {
  }

  /** The text whose characters have the codes in `b` (Latin-1 decoding). */
  function AsciiText(b: seq<Byte>): (t: string)
    ensures (forall i :: 0 <= i < |b| ==> b[i] < 0x80) ==> Utf8.EncodeAscii(t) == Some(b)
  {
    var t := seq(|b|, i requires 0 <= i < |b| => b[i] as char);
    assert (forall i :: 0 <= i < |b| ==> b[i] < 0x80) ==> Utf8.EncodeAscii(t).value == b;
    t
  }

  /**
    A `base64` mapping whose text is the base 64 encoding of some bytes
    gives back exactly those bytes, in one `"content"` directive.
   */
  lemma Base64EntryRoundTrip(url: string, data: seq<Byte>, m: seq<(string, Value)>, fs: FileSystem)
    requires Get(m, "base64") == Some(Text(AsciiText(Base64.Encode(data))))
    ensures ExpandEntry(url, Mapping(m), fs) == Expansion([Directive(url, Content(data))], None)
  {
    Base64.EncodeIsAscii(data);
    Base64.DecodeEncode(data);
  }

  /**
    A `base64` string of alphabet characters only (no padding) that is not a
    whole number of quanta raises `binascii.Error`, a `ValueError`.
   */
  lemma Base64EntryBadLength(url: string, t: string, m: seq<(string, Value)>, fs: FileSystem)
    requires Get(m, "base64") == Some(Text(t)) && |t| % 4 != 0
    requires forall i :: 0 <= i < |t| ==> (t[i] as int) < 0x80 && Base64.IsAlphabet(t[i] as int)
    ensures ExpandEntry(url, Mapping(m), fs) == Expansion([], Some(Base64Error))
    ensures Base64Error.IsValueError()
  {
  }

  /**
    A `base64` text entry yields the bytes `b` exactly when the text is ASCII
    and, once the unused bits before its padding are cleared, is the base 64
    encoding of `b`; so `"aGl="` yields `b"hi"` and `"aG!k"` raises. Whatever
    it raises is a `ValueError`.
   */
  lemma Base64TextEntry(url: string, t: string, m: seq<(string, Value)>, fs: FileSystem, b: seq<Byte>)
    requires Get(m, "base64") == Some(Text(t))
    ensures ExpandEntry(url, Mapping(m), fs) == Expansion([Directive(url, Content(b))], None) <==>
      Utf8.EncodeAscii(t).Some? && Base64.Encode(b) == Base64.ClearUnusedBits(Utf8.EncodeAscii(t).value)
    ensures var f := ExpandEntry(url, Mapping(m), fs).failure; f.Some? ==> f.value.IsValueError()
  {
    Base64Branch(url, m, fs);
    if Utf8.EncodeAscii(t).Some? {
      Base64.DecodeIsInverse(Utf8.EncodeAscii(t).value, b);
    }
  }

  /** With `base64` present, the entry is what `b64decode` makes of its value. */
  lemma Base64Branch(url: string, m: seq<(string, Value)>, fs: FileSystem)
    requires Get(m, "base64").Some?
    ensures var d := B64Decode(Get(m, "base64").value);
      ExpandEntry(url, Mapping(m), fs) ==
        if d.Ok? then Expansion([Directive(url, Content(d.value))], None) else Expansion([], Some(d.error))
  {
  }

  /**
    `base64` takes precedence: once it is present, neither `copy_from` nor
    the disk has any influence on the entry.
   */
  lemma Base64Precedence(url: string, m1: seq<(string, Value)>, m2: seq<(string, Value)>, fs1: FileSystem, fs2: FileSystem)
    requires Get(m1, "base64").Some? && Get(m1, "base64") == Get(m2, "base64")
    ensures ExpandEntry(url, Mapping(m1), fs1) == ExpandEntry(url, Mapping(m2), fs2)
  {
  }

  /**
    A `copy_from` mapping without `base64` never fails once its path is a
    string: it gives one directive per non-directory entry of the tree, or one
    `"path"` directive at the entry's URL when the path is not a directory
    (also when it does not exist).
   */
  lemma CopyFromEntry(url: string, root: string, m: seq<(string, Value)>, fs: FileSystem)
    requires Get(m, "base64").None? && Get(m, "copy_from") == Some(Text(root))
    ensures ExpandEntry(url, Mapping(m), fs).Succeeded()
    ensures root in fs ==> |ExpandEntry(url, Mapping(m), fs).emitted| == DiskWalkProperties.FileCount(fs[root])
    ensures (root !in fs || fs[root].File?) ==>
      ExpandEntry(url, Mapping(m), fs).emitted == [Directive(url, Path(FsPath(root, [])))]
  {
    if root in fs {
      DiskWalkProperties.FromDiskCount(url, FsPath(root, []), fs[root]);
    }
  }

  /** Every directive of an entry lies at its URL with the trailing slashes stripped, or below it. */
  lemma EntryUrlPrefix(url: string, v: Value, fs: FileSystem)
    ensures forall d :: d in ExpandEntry(url, v, fs).emitted ==> RStripSlash(url) <= d.urlPath
  {
    if v.Mapping? && Get(v.items, "base64").None? && Get(v.items, "copy_from").Some? {
      var p := Get(v.items, "copy_from").value;
      if p.Text? && p.text in fs {
        DiskWalkProperties.FromDiskUrlPrefix(url, FsPath(p.text, []), fs[p.text]);
      }
    }
  }

  /** The `ValueError` that `get_extra_files` raises itself is raised exactly for a mapping with neither key. */
  lemma MissingKeyError(url: string, v: Value, fs: FileSystem)
    ensures ExpandEntry(url, v, fs).failure == Some(ValueError(MissingKeyMessage)) <==>
      v.Mapping? && Get(v.items, "base64").None? && Get(v.items, "copy_from").None?
  {
    assert MissingKeyMessage[0] == 'a';
  }

  /**
    The `TypeError` that `get_extra_files` raises itself is raised exactly for a value that is not
    text, bytes or a mapping, and its message ends with that value's type name.
   */
  lemma UnsupportedTypeError(url: string, v: Value, fs: FileSystem)
    ensures ExpandEntry(url, v, fs).failure == Some(TypeError(UnsupportedTypeMessage(TypeName(v)))) <==>
      !(v.Text? || v.Bytes? || v.Mapping?)
  {
    if v.Mapping? {
      // The other `TypeError`s of a mapping entry end in a quote; this message ends in the type name.
      var msg := UnsupportedTypeMessage(TypeName(v));
      assert msg[|msg| - 1] == 't';
    }
  }

  // ---------------------------------------------------------------------------
  // The sequence of entries
  // ---------------------------------------------------------------------------

  lemma ThenAssociative(a: Expansion, b: Expansion, c: Expansion)
    ensures a.Then(b).Then(c) == a.Then(b.Then(c))
  {
    if a.failure.None? && b.failure.None? {
      assert (a.emitted + b.emitted) + c.emitted == a.emitted + (b.emitted + c.emitted);
    }
  }

  /**
    Entries are expanded in insertion order: everything the first part of
    the mapping contributes comes before anything the rest contributes, and
    a failure in the first part ends the expansion there.
   */
  lemma {:induction false} ExpandEntriesAppend(a: seq<(string, Value)>, b: seq<(string, Value)>, fs: FileSystem)
    ensures ExpandEntries(a + b, fs) == ExpandEntries(a, fs).Then(ExpandEntries(b, fs))
    decreases |a|
  {
    if a == [] {
      assert a + b == b;
      assert [] + ExpandEntries(b, fs).emitted == ExpandEntries(b, fs).emitted;
    } else {
      assert (a + b)[0] == a[0];
      assert (a + b)[1..] == a[1..] + b;
      ExpandEntriesAppend(a[1..], b, fs);
      ThenAssociative(ExpandEntry(a[0].0, a[0].1, fs), ExpandEntries(a[1..], fs), ExpandEntries(b, fs));
    }
  }

  /** The directives of the entries one after the other, when none of them fails. */
  function ConcatEmitted(items: seq<(string, Value)>, fs: FileSystem): seq<Directive>
    decreases |items|
  {
    if items == [] then [] else ExpandEntry(items[0].0, items[0].1, fs).emitted + ConcatEmitted(items[1..], fs)
  }

  /**
    The expansion succeeds if and only if every entry does, and then it is
    the directives of the entries in insertion order.
   */
  lemma {:induction false} ExpandEntriesSucceeded(items: seq<(string, Value)>, fs: FileSystem)
    ensures ExpandEntries(items, fs).Succeeded() <==>
      forall j :: 0 <= j < |items| ==> ExpandEntry(items[j].0, items[j].1, fs).Succeeded()
    ensures ExpandEntries(items, fs).Succeeded() ==> ExpandEntries(items, fs).emitted == ConcatEmitted(items, fs)
    decreases |items|
  {
    if items != [] {
      ExpandEntriesSucceeded(items[1..], fs);
      assert forall j :: 1 <= j < |items| ==> items[j] == items[1..][j - 1];
    }
  }

  /**
    Like the generator, the expansion stops at the first entry that raises:
    it has yielded what the entries before it yielded, and raises that
    entry's exception.
   */
  lemma FirstFailure(items: seq<(string, Value)>, k: nat, fs: FileSystem)
    requires k < |items|
    requires forall j :: 0 <= j < k ==> ExpandEntry(items[j].0, items[j].1, fs).Succeeded()
    requires !ExpandEntry(items[k].0, items[k].1, fs).Succeeded()
    ensures ExpandEntries(items, fs).failure == ExpandEntry(items[k].0, items[k].1, fs).failure
    ensures ExpandEntries(items, fs).emitted == ConcatEmitted(items[..k], fs)
  {
    var before, after := items[..k], items[k..];
    assert items == before + after;
    ExpandEntriesAppend(before, after, fs);
    ExpandEntriesSucceeded(before, fs);
    assert after[0] == items[k];
    assert ExpandEntries(after, fs) == ExpandEntry(items[k].0, items[k].1, fs);
    assert ExpandEntries(before, fs).emitted + [] == ExpandEntries(before, fs).emitted;
  }

  // ---------------------------------------------------------------------------
  // The whole configuration
  // ---------------------------------------------------------------------------

  /**
    `AttributeError` is raised exactly when `extra_files` is present, is not
    `None` and is not a mapping.
   */
  lemma AttributeErrorExactly(config: seq<(string, Value)>, fs: FileSystem)
    ensures (GetExtraFiles(config, fs).failure.Some? && GetExtraFiles(config, fs).failure.value.AttributeError?) <==>
      (Get(config, "extra_files").Some? && !Get(config, "extra_files").value.NoneValue? && !Get(config, "extra_files").value.Mapping?)
  {
  }

  /** Worked example: a text entry. */
  lemma ExampleText()
    ensures GetExtraFiles([("extra_files", Mapping([("/a.txt", Text("hi"))]))], map[]) ==
      Expansion([Directive("/a.txt", Content([104, 105]))], None)
  {
    var entry := ExpandEntry("/a.txt", Text("hi"), map[]);
    assert Utf8.Encode("hi") == [104, 105];
    assert entry == Expansion([Directive("/a.txt", Content([104, 105]))], None);
    assert ExpandEntries([("/a.txt", Text("hi"))], map[]) == entry.Then(Expansion([], None));
  }

  /** Worked example: a `base64` entry. */
  lemma ExampleBase64()
    ensures GetExtraFiles([("extra_files", Mapping([("/b.bin", Mapping([("base64", Text("aGk="))]))]))], map[]) ==
      Expansion([Directive("/b.bin", Content([104, 105]))], None)
  {
    var text := Utf8.EncodeAscii("aGk=");
    assert text.Some? && |text.value| == 4;
    assert text.value == [97, 71, 107, 61];
    assert Base64.Decode([97, 71, 107, 61]) == Some([104, 105]);
    var entry := ExpandEntry("/b.bin", Mapping([("base64", Text("aGk="))]), map[]);
    assert entry == Expansion([Directive("/b.bin", Content([104, 105]))], None);
    assert ExpandEntries([("/b.bin", Mapping([("base64", Text("aGk="))]))], map[]) == entry.Then(Expansion([], None));
  }

  /** Worked example: a `copy_from` entry naming a directory that holds one file. */
  lemma ExampleCopyFrom()
    ensures GetExtraFiles([("extra_files", Mapping([("/dir", Mapping([("copy_from", Text("static"))]))]))],
                          map["static" := Dir("static", [File("x.txt")])]) ==
      Expansion([Directive("/dir/x.txt", Path(FsPath("static", ["x.txt"])))], None)
  {
    var fs := map["static" := Dir("static", [File("x.txt")])];
    var root := FsPath("static", []);
    assert RStripSlash("/dir") == "/dir";
    assert ChildUrl("/dir", "x.txt") == "/dir/x.txt";
    assert FromDiskChildren("/dir", root, [File("x.txt")]) ==
      FromDisk("/dir/x.txt", root.Child("x.txt"), File("x.txt")) + FromDiskChildren("/dir", root, []);
    assert root.Child("x.txt") == FsPath("static", ["x.txt"]);
    assert fs["static"] == Dir("static", [File("x.txt")]);
    assert FromDisk("/dir", root, fs["static"]) == FromDiskChildren("/dir", root, [File("x.txt")]);
    assert CopyFrom("/dir", "static", fs) == [Directive("/dir/x.txt", Path(FsPath("static", ["x.txt"])))];
    var entry := ExpandEntry("/dir", Mapping([("copy_from", Text("static"))]), fs);
    assert entry == Expansion(CopyFrom("/dir", "static", fs), None);
    assert ExpandEntries([("/dir", Mapping([("copy_from", Text("static"))]))], fs) == entry.Then(Expansion([], None));
  }
}
