/** What the compiler learns about Java classes by reflection, given as data: each
    class's nested classes, where its class file comes from, and its `@ProcInfo`
    annotation. Also the two ways the compiler turns a class name into a file name. */
module Classes {
  import opened Wrappers
  import Strings

  newtype byte = x: int | 0 <= x < 256

  /** The part of the `@ProcInfo` annotation the compiler reads. */
  datatype ProcInfo = ProcInfo(singlePartition: bool)

  /** The outcome of locating and reading a class file: its bytes (whether from a
      loose file or from an entry of an enclosing jar), not found, or a failed read. */
  datatype ClassSource = ClassFile(bytes: seq<byte>) | NotFound | ReadFailure

  datatype ClassInfo = ClassInfo(nested: seq<string>, source: ClassSource, procInfo: Option<ProcInfo>)

  /** The classes `Class.forName` can load, by fully qualified name. */
  type ClassPath = map<string, ClassInfo>

  const ClassSuffix: string := ".class"

  /** The archive path of a class: package dots become directory slashes. */
  function ArchivePath(className: string): (r: string)
    ensures Strings.EndsWith(r, ClassSuffix)
    ensures '.' !in r[..|r| - |ClassSuffix|]
  {
    var p := Strings.Replace(className, '.', '/') + ClassSuffix;
    assert p[..|p| - |ClassSuffix|] == Strings.Replace(className, '.', '/');
    p
  }

  /** The class name an archive path was made from. */
  function ClassOfArchivePath(path: string): string {
    if Strings.EndsWith(path, ClassSuffix) then Strings.Replace(path[..|path| - |ClassSuffix|], '/', '.')
    else Strings.Replace(path, '/', '.')
  }

  /** Java class names hold no slash, and for those the archive path determines the class. */
  lemma ClassOfArchivePathInverse(className: string)
    requires '/' !in className
    ensures ClassOfArchivePath(ArchivePath(className)) == className
  {
    var p := ArchivePath(className);
    assert p[..|p| - |ClassSuffix|] == Strings.Replace(className, '.', '/');
    Strings.ReplaceInverse(className, '.', '/');
  }

  lemma ArchivePathInjective(a: string, b: string)
    requires '/' !in a && '/' !in b
    requires ArchivePath(a) == ArchivePath(b)
    ensures a == b
  {
    ClassOfArchivePathInverse(a);
    ClassOfArchivePathInverse(b);
  }

  /** The simple name plus `.class`: the text after the last dot. */
  function ClassFileName(className: string): (r: string)
    ensures Strings.EndsWith(r, ClassSuffix)
    ensures '.' !in r[..|r| - |ClassSuffix|]
    ensures Strings.EndsWith(className, r[..|r| - |ClassSuffix|])
  {
    var simple := className[Strings.LastIndexOf(className, '.') + 1..];
    var r := simple + ClassSuffix;
    assert r[..|r| - |ClassSuffix|] == simple;
    r
  }
}
