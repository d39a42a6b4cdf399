/** Copying class files into the output jar. A class is added together with every
    class nested in it, each at most once per compile: a cache of the classes
    already added (cleared when a compile starts) stops the recursion. */
module Packager {
  import opened Wrappers
  import Strings
  import opened Classes

  datatype JarEntry = JarEntry(path: string, bytes: seq<byte>)

  /** The classes already added (the cache) and the jar entries written so far. */
  datatype Packing = Packing(cache: set<string>, jar: seq<JarEntry>)

  /** The state at the start of a compile: the cache cleared, the jar empty. */
  const Fresh: Packing := Packing({}, [])

  function LocateMessage(className: string): string {
    "Unable to locate classfile for " + ClassFileName(className)
  }

  function ReadMessage(className: string): string {
    "Unable to read (or completely read) classfile for " + ClassFileName(className)
  }

  /** `b` extends `a`: nothing leaves the cache and the jar is only appended to. */
  predicate Grows(a: Packing, b: Packing) {
    a.cache <= b.cache && a.jar <= b.jar
  }

  lemma UncachedShrinks(keys: set<string>, a: set<string>, b: set<string>)
    requires a <= b
    ensures |keys - b| <= |keys - a|
  {
    assert keys - b <= keys - a;
    SubsetCardinality(keys - b, keys - a);
  }

  lemma UncachedDecreases(keys: set<string>, a: set<string>, c: string)
    requires c in keys && c !in a
    ensures |keys - (a + {c})| < |keys - a|
  {
    assert keys - (a + {c}) == (keys - a) - {c};
  }

  lemma SubsetCardinality<T>(x: set<T>, y: set<T>)
    requires x <= y
    ensures |x| <= |y|
  {
    assert y == x + (y - x);
  }

  /** Adds a class, the classes nested in it first, then its own class file. A
      class already in the cache is skipped; a class is cached before its nested
      classes are visited, so a cycle of nesting ends. */
  function AddClassToJar(classes: ClassPath, className: string, st: Packing): (r: Result<Packing>)
    ensures r.Ok? ==> Grows(st, r.value) && className in r.value.cache
    ensures className in st.cache ==> r == Ok(st)
    ensures className !in st.cache && className !in classes ==> r == Err(LocateMessage(className))
    ensures className !in st.cache && className in classes && !classes[className].source.ClassFile? ==> r.Err?
    ensures r.Ok? && className !in st.cache ==>
      && className in classes && classes[className].source.ClassFile?
      && |r.value.jar| > 0
      && r.value.jar[|r.value.jar| - 1] == JarEntry(ArchivePath(className), classes[className].source.bytes)
    decreases |classes.Keys - st.cache|, 0, 0
  {
    if className in st.cache then Ok(st)
    else
      var st1 := st.(cache := st.cache + {className});
      if className !in classes then Err(LocateMessage(className))
      else
        UncachedDecreases(classes.Keys, st.cache, className);
        match AddClasses(classes, classes[className].nested, st1)
        case Err(e) => Err(e)
        case Ok(st2) =>
          match classes[className].source
          case NotFound => Err(LocateMessage(className))
          case ReadFailure => Err(ReadMessage(className))
          case ClassFile(bytes) => Ok(st2.(jar := st2.jar + [JarEntry(ArchivePath(className), bytes)]))
  }

  /** Adds each of the named classes in order, stopping at the first failure: the
      nested classes of a class, and the class dependencies of a project. */
  function AddClasses(classes: ClassPath, names: seq<string>, st: Packing): (r: Result<Packing>)
    ensures r.Ok? ==> Grows(st, r.value)
    ensures r.Ok? ==> forall i :: 0 <= i < |names| ==> names[i] in r.value.cache
    decreases |classes.Keys - st.cache|, 1, |names|
  {
    if |names| == 0 then Ok(st)
    else
      match AddClassToJar(classes, names[0], st)
      case Err(e) => Err(e)
      case Ok(st1) =>
        UncachedShrinks(classes.Keys, st.cache, st1.cache);
        match AddClasses(classes, names[1..], st1)
        case Err(e) => Err(e)
        case Ok(st2) =>
          assert forall i :: 1 <= i < |names| ==> names[i] == names[1..][i - 1];
          Ok(st2)
  }

  /** The class an entry was written for. */
  function EntryClass(e: JarEntry): string {
    ClassOfArchivePath(e.path)
  }

  /** Class names hold no slash, so an archive path names its class. */
  predicate SlashFree(classes: ClassPath) {
    forall c :: c in classes ==> '/' !in c
  }

  /** Every entry belongs to a cached class and no two entries belong to the same
      class, so no path is written twice. */
  predicate Inv(st: Packing) {
    && (forall i :: 0 <= i < |st.jar| ==> EntryClass(st.jar[i]) in st.cache)
    && (forall i, j :: 0 <= i < j < |st.jar| ==> EntryClass(st.jar[i]) != EntryClass(st.jar[j]))
  }

  /** The jar holds an entry for each class in `written`, and nothing else. */
  predicate EntriesFor(st: Packing, written: set<string>) {
    forall i :: 0 <= i < |st.jar| ==> EntryClass(st.jar[i]) in written
  }

  /** Class `c` is finished: its class file is in the jar and its nested classes
      are all cached. */
  predicate Done(classes: ClassPath, st: Packing, c: string) {
    && c in classes
    && (exists i :: 0 <= i < |st.jar| && st.jar[i].path == ArchivePath(c))
    && forall n :: n in classes[c].nested ==> n in st.cache
  }

  /** Every cached class is finished, except the ones still being added. */
  predicate DoneExcept(classes: ClassPath, st: Packing, pending: set<string>) {
    forall c :: c in st.cache && c !in pending ==> Done(classes, st, c)
  }

  lemma DoneGrows(classes: ClassPath, a: Packing, b: Packing, c: string)
    requires Grows(a, b) && Done(classes, a, c)
    ensures Done(classes, b, c)
  {
    var i :| 0 <= i < |a.jar| && a.jar[i].path == ArchivePath(c);
    assert b.jar[i] == a.jar[i];
  }

  /** Adding a class keeps the invariant, and every entry it writes is for a class
      that was not cached before the call. */
  lemma {:induction false} AddClassToJarInv(classes: ClassPath, className: string, st: Packing)
    requires SlashFree(classes) && Inv(st)
    ensures var r := AddClassToJar(classes, className, st);
      r.Ok? ==> Inv(r.value) && NewEntriesUncached(st, r.value)
    decreases |classes.Keys - st.cache|, 0, 0
  {
    if className !in st.cache && className in classes {
      var st1 := st.(cache := st.cache + {className});
      UncachedDecreases(classes.Keys, st.cache, className);
      var r2 := AddClasses(classes, classes[className].nested, st1);
      AddClassesInv(classes, classes[className].nested, st1);
      if r2.Ok? && classes[className].source.ClassFile? {
        AppendEntryInv(st, st1, r2.value, className, classes[className].source.bytes);
      }
    }
  }

  /** Appending the entry of a class cached during the call, after the entries of
      its nested classes, keeps the invariant. */
  lemma AppendEntryInv(st: Packing, st1: Packing, st2: Packing, className: string, bytes: seq<byte>)
    requires '/' !in className && className !in st.cache
    requires Inv(st) && st1 == st.(cache := st.cache + {className})
    requires Grows(st1, st2) && Inv(st2) && NewEntriesUncached(st1, st2)
    ensures var st3 := st2.(jar := st2.jar + [JarEntry(ArchivePath(className), bytes)]);
      Grows(st, st3) && Inv(st3) && NewEntriesUncached(st, st3)
  {
    var e := JarEntry(ArchivePath(className), bytes);
    var st3 := st2.(jar := st2.jar + [e]);
    ClassOfArchivePathInverse(className);
    assert EntryClass(e) == className;
    forall i | 0 <= i < |st2.jar| ensures st3.jar[i] == st2.jar[i] && EntryClass(st2.jar[i]) != className {
      if i < |st.jar| {
        assert st2.jar[i] == st.jar[i];
      }
    }
    assert st3.jar[|st2.jar|] == e;
  }

  /** The entries appended between `a` and `b` are for classes not cached in `a`. */
  predicate NewEntriesUncached(a: Packing, b: Packing)
    requires a.jar <= b.jar
  {
    forall i :: |a.jar| <= i < |b.jar| ==> EntryClass(b.jar[i]) !in a.cache
  }

  lemma {:induction false} AddClassesInv(classes: ClassPath, names: seq<string>, st: Packing)
    requires SlashFree(classes) && Inv(st)
    ensures var r := AddClasses(classes, names, st);
      r.Ok? ==> Inv(r.value) && NewEntriesUncached(st, r.value)
    decreases |classes.Keys - st.cache|, 1, |names|
  {
    if |names| > 0 {
      AddClassToJarInv(classes, names[0], st);
      var r1 := AddClassToJar(classes, names[0], st);
      if r1.Ok? {
        UncachedShrinks(classes.Keys, st.cache, r1.value.cache);
        AddClassesInv(classes, names[1..], r1.value);
      }
    }
  }

  /** A class cached but not pending is finished; adding a class keeps that so. */
  lemma {:induction false} AddClassToJarDone(classes: ClassPath, className: string, st: Packing, pending: set<string>)
    requires DoneExcept(classes, st, pending)
    ensures var r := AddClassToJar(classes, className, st);
      r.Ok? ==> DoneExcept(classes, r.value, pending)
    decreases |classes.Keys - st.cache|, 0, 0
  {
    if className !in st.cache && className in classes {
      var st1 := st.(cache := st.cache + {className});
      var pending1 := pending + {className};
      forall c | c in st1.cache && c !in pending1 ensures Done(classes, st1, c) {
        DoneGrows(classes, st, st1, c);
      }
      UncachedDecreases(classes.Keys, st.cache, className);
      var r2 := AddClasses(classes, classes[className].nested, st1);
      AddClassesDone(classes, classes[className].nested, st1, pending1);
      if r2.Ok? && classes[className].source.ClassFile? {
        var st2 := r2.value;
        var e := JarEntry(ArchivePath(className), classes[className].source.bytes);
        var st3 := st2.(jar := st2.jar + [e]);
        assert st3.jar[|st2.jar|] == e;
        forall c | c in st3.cache && c !in pending ensures Done(classes, st3, c) {
          if c != className {
            DoneGrows(classes, st2, st3, c);
          } else {
            forall n | n in classes[c].nested ensures n in st3.cache {
              var k :| 0 <= k < |classes[c].nested| && classes[c].nested[k] == n;
            }
          }
        }
      }
    }
  }

  lemma {:induction false} AddClassesDone(classes: ClassPath, names: seq<string>, st: Packing, pending: set<string>)
    requires DoneExcept(classes, st, pending)
    ensures var r := AddClasses(classes, names, st);
      r.Ok? ==> DoneExcept(classes, r.value, pending)
    decreases |classes.Keys - st.cache|, 1, |names|
  {
    if |names| > 0 {
      AddClassToJarDone(classes, names[0], st, pending);
      var r1 := AddClassToJar(classes, names[0], st);
      if r1.Ok? {
        UncachedShrinks(classes.Keys, st.cache, r1.value.cache);
        AddClassesDone(classes, names[1..], r1.value, pending);
      }
    }
  }

  /** Starting from a cleared cache, a successful run writes each class at most once
      under its archive path, and every class it caches (the named ones and,
      transitively, all classes nested in them) has its class file in the jar. */
  lemma AddClassesComplete(classes: ClassPath, names: seq<string>)
    requires SlashFree(classes)
    ensures var r := AddClasses(classes, names, Fresh);
      r.Ok? ==>
        && (forall i, j :: 0 <= i < j < |r.value.jar| ==> r.value.jar[i].path != r.value.jar[j].path)
        && (forall i :: 0 <= i < |names| ==> names[i] in r.value.cache)
        && (forall c :: c in r.value.cache ==> Done(classes, r.value, c))
  {
    AddClassesInv(classes, names, Fresh);
    AddClassesDone(classes, names, Fresh, {});
  }

  /** The outcome of reading a class file of `fileSize` bytes into a buffer. */
  datatype ReadOutcome = Complete(bytes: seq<byte>) | ReadError | OutOfBounds

  /** An input stream over `remaining`, where one read hands over at most `block`
      bytes (a stream may return fewer bytes than asked for). */
  datatype Stream = Stream(remaining: seq<byte>, block: nat)

  function Min(a: int, b: int): int {
    if a <= b then a else b
  }

  /** The number of bytes one `read(buf, off, len)` hands over when the stream is
      not exhausted: at least one, at most `len`. */
  function Delivered(s: Stream, len: nat): (n: nat)
    requires len > 0 && |s.remaining| > 0 && s.block > 0
    ensures 0 < n <= len && n <= |s.remaining| && n <= s.block
  {
    Min(Min(len, |s.remaining|), s.block)
  }

  /** The loop as written: `readSize` is assigned the count of the last read rather
      than increased by it, so after a short read the next read starts at the wrong
      offset, and a read at end of stream sets `readSize` to -1, whose next read is
      out of bounds. */
  function ReadLoopAsWritten(buf: seq<byte>, readSize: int, s: Stream): (r: ReadOutcome)
    requires s.block > 0
    ensures r.Complete? ==> |r.bytes| == |buf|
    ensures r.ReadError? ==> false
    decreases |s.remaining|, if readSize < 0 then 0 else 1
  {
    if readSize >= |buf| then Complete(buf)
    else if readSize < 0 then OutOfBounds
    else if |s.remaining| == 0 then ReadLoopAsWritten(buf, -1, s)
    else
      var n := Delivered(s, |buf| - readSize);
      var buf' := buf[..readSize] + s.remaining[..n] + buf[readSize + n..];
      ReadLoopAsWritten(buf', n, Stream(s.remaining[n..], s.block))
  }

  function Zeros(n: nat): (r: seq<byte>)
    ensures |r| == n
  {
    seq(n, _ => 0)
  }

  /** A ten-byte class file that the stream hands over as six bytes and then four
      is never read: the third read starts at offset 4 and finds the stream
      exhausted, and the fourth is asked to start at offset -1. */
  lemma ShortReadIsOutOfBounds(data: seq<byte>)
    requires |data| == 10
    ensures ReadLoopAsWritten(Zeros(10), 0, Stream(data, 6)) == OutOfBounds
  {
    var b0 := Zeros(10);
    var b1 := b0[..0] + data[..6] + b0[6..];
    var b2 := b1[..6] + data[6..][..4] + b1[10..];
    assert ReadLoopAsWritten(b0, 0, Stream(data, 6)) == ReadLoopAsWritten(b1, 6, Stream(data[6..], 6));
    assert ReadLoopAsWritten(b1, 6, Stream(data[6..], 6)) == ReadLoopAsWritten(b2, 4, Stream(data[6..][4..], 6));
    assert |data[6..][4..]| == 0;
    assert ReadLoopAsWritten(b2, 4, Stream(data[6..][4..], 6)) == ReadLoopAsWritten(b2, -1, Stream(data[6..][4..], 6));
  }

  /** When one read hands over the whole file, the loop as written reads it. */
  lemma OneReadSucceeds(data: seq<byte>, fileSize: nat)
    requires 0 < fileSize <= |data|
    ensures ReadLoopAsWritten(Zeros(fileSize), 0, Stream(data, fileSize)) == Complete(data[..fileSize])
  {
    var b0 := Zeros(fileSize);
    var s := Stream(data, fileSize);
    assert Delivered(s, fileSize) == fileSize;
    var b1 := b0[..0] + data[..fileSize] + b0[fileSize..];
    assert b1 == data[..fileSize];
  }

  /** The loop as evidently intended: each read's count is added to `readSize`, and
      a stream that ends before `fileSize` bytes is a failed read. The result does
      not depend on how the stream splits its reads. */
  method ReadClassFile(data: seq<byte>, block: nat, fileSize: nat) returns (r: ReadOutcome)
    requires block > 0
    ensures fileSize <= |data| ==> r == Complete(data[..fileSize])
    ensures |data| < fileSize ==> r == ReadError
  {
    var buf := Zeros(fileSize);
    var readSize := 0;
    var s := Stream(data, block);
    while readSize < fileSize
      invariant 0 <= readSize <= fileSize && readSize <= |data|
      invariant |buf| == fileSize
      invariant buf[..readSize] == data[..readSize]
      invariant s == Stream(data[readSize..], block)
      decreases fileSize - readSize
    {
      if |s.remaining| == 0 {
        return ReadError;
      }
      var n := Delivered(s, fileSize - readSize);
      buf := buf[..readSize] + s.remaining[..n] + buf[readSize + n..];
      assert buf[..readSize + n] == data[..readSize + n];
      readSize := readSize + n;
      s := Stream(s.remaining[n..], block);
    }
    assert buf == buf[..readSize];
    return Complete(buf);
  }

  /** Splits a `jar-path!/entry-path` locator on `!`: the jar path loses a leading
      `file:`, the entry path its first character. Fewer than two parts, or an empty
      second part, is a failure (the exception that becomes "Unable to locate"). */
  function SplitJarLocator(locator: string): (r: Option<(string, string)>)
    ensures r.Some? <==> |Strings.Split(locator, '!')| >= 2 && |Strings.Split(locator, '!')[1]| > 0
  {
    var parts := Strings.Split(locator, '!');
    if |parts| < 2 || |parts[1]| == 0 then None
    else
      var jar := if Strings.StartsWith(parts[0], FilePrefix) then parts[0][|FilePrefix|..] else parts[0];
      Some((jar, parts[1][1..]))
  }

  const FilePrefix: string := "file:"

  /** A locator built from a jar path and an entry path (neither holding `!`, the
      entry path non-empty) splits back into them. */
  lemma SplitJarLocatorRoundTrip(jar: string, entry: string)
    requires '!' !in jar && '!' !in entry && |entry| > 0
    requires !Strings.StartsWith(jar, FilePrefix)
    ensures SplitJarLocator(FilePrefix + jar + "!/" + entry) == Some((jar, entry))
  {
    var locator := FilePrefix + jar + "!/" + entry;
    var p0 := FilePrefix + jar;
    var p1 := "/" + entry;
    assert '!' !in p0 && '!' !in p1;
    Strings.FieldsOfJoin([p0, p1], '!');
    assert Strings.Join([p0, p1], '!') == locator;
    assert locator[|locator| - 1] == entry[|entry| - 1];
    Strings.SplitJoin(locator, '!');
    assert p0[|FilePrefix|..] == jar && p1[1..] == entry;
  }
}
