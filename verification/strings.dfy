/** The handful of java.lang.String operations the compiler relies on, written out
    exactly enough that their edge cases (empty strings, trailing separators,
    absent characters) behave as they do in the JDK. */
module Strings {
  import opened Wrappers

  predicate StartsWith(s: string, prefix: string) {
    |prefix| <= |s| && s[..|prefix|] == prefix
  }

  predicate EndsWith(s: string, suffix: string) {
    |suffix| <= |s| && s[|s| - |suffix|..] == suffix
  }

  /** Ending with a one-character string is a test of the last character. */
  lemma EndsWithChar(s: string, c: char)
    ensures EndsWith(s, [c]) <==> |s| > 0 && s[|s| - 1] == c
  {
    if |s| > 0 {
      assert s[|s| - 1..] == [s[|s| - 1]];
    }
  }

  /** `t` occurs in `s` starting at position `i`. */
  predicate OccursAt(s: string, t: string, i: int) {
    0 <= i <= |s| - |t| && s[i..i + |t|] == t
  }

  /** `String.contains`: `t` occurs somewhere in `s`. */
  predicate Contains(s: string, t: string) {
    exists i :: 0 <= i <= |s| && OccursAt(s, t, i)
  }

  /** `String.indexOf(char)` for a character known to occur. */
  function IndexOf(s: string, c: char): (r: nat)
    requires c in s
    ensures r < |s| && s[r] == c
    ensures forall j :: 0 <= j < r ==> s[j] != c
  {
    if s[0] == c then 0 else IndexOf(s[1..], c) + 1
  }

  /** `String.lastIndexOf(char)`: the last position of `c`, or -1. */
  function LastIndexOf(s: string, c: char): (r: int)
    ensures -1 <= r < |s|
    ensures r >= 0 ==> s[r] == c
    ensures forall j :: r < j < |s| ==> s[j] != c
  {
    if |s| == 0 then -1
    else if s[|s| - 1] == c then |s| - 1
    else LastIndexOf(s[..|s| - 1], c)
  }

  /** The last occurrence is the only position that holds `c` with no `c` after it. */
  lemma LastIndexOfUnique(s: string, c: char, k: int)
    requires -1 <= k < |s|
    requires k >= 0 ==> s[k] == c
    requires forall j :: k < j < |s| ==> s[j] != c
    ensures LastIndexOf(s, c) == k
  {
  }

  /** The last occurrence in a string is found by searching the text after any
      earlier occurrence. */
  lemma LastIndexOfAfter(s: string, c: char, k: nat)
    requires k < |s| && s[k] == c
    ensures LastIndexOf(s, c) == k + 1 + LastIndexOf(s[k + 1..], c)
  {
    var rest := s[k + 1..];
    var l := LastIndexOf(rest, c);
    forall j | k + 1 + l < j < |s|
      ensures s[j] != c
    {
      assert s[j] == rest[j - k - 1];
    }
    if l >= 0 {
      assert s[k + 1 + l] == rest[l];
    }
    LastIndexOfUnique(s, c, k + 1 + l);
  }

  lemma SuffixOfSuffix(s: string, a: nat, b: nat)
    requires a + b <= |s|
    ensures s[a..][b..] == s[a + b..]
  {
  }

  /** The parts glued back with the separator between consecutive parts. */
  function Join(parts: seq<string>, sep: char): string
  {
    if |parts| == 0 then ""
    else if |parts| == 1 then parts[0]
    else parts[0] + [sep] + Join(parts[1..], sep)
  }

  /** Every piece between separators, empty pieces included: the split before the
      JDK discards trailing empty strings. */
  function Fields(s: string, sep: char): (r: seq<string>)
    ensures |r| >= 1
    ensures forall i :: 0 <= i < |r| ==> sep !in r[i]
    decreases |s|
  {
    if sep !in s then [s]
    else
      var k := IndexOf(s, sep);
      [s[..k]] + Fields(s[k + 1..], sep)
  }

  /** Joining the fields with the separator gives back the string. */
  lemma {:induction false} JoinOfFields(s: string, sep: char)
    ensures Join(Fields(s, sep), sep) == s
    decreases |s|
  {
    if sep in s {
      var k := IndexOf(s, sep);
      var rest := Fields(s[k + 1..], sep);
      JoinOfFields(s[k + 1..], sep);
      assert ([s[..k]] + rest)[1..] == rest;
      assert s == s[..k] + [sep] + s[k + 1..];
    }
  }

  /** The first field ends at the first separator. */
  lemma FieldsCons(s: string, sep: char, k: nat)
    requires k < |s| && s[k] == sep
    requires forall j :: 0 <= j < k ==> s[j] != sep
    ensures Fields(s, sep) == [s[..k]] + Fields(s[k + 1..], sep)
  {
    assert sep in s;
    IndexOfUnique(s, sep, k);
  }

  lemma IndexOfUnique(s: string, c: char, k: nat)
    requires k < |s| && s[k] == c
    requires forall j :: 0 <= j < k ==> s[j] != c
    ensures IndexOf(s, c) == k
  {
    var i := IndexOf(s, c);
    assert !(i < k) && !(k < i);
  }

  /** Fields inverts Join when no part holds the separator. */
  lemma {:induction false} FieldsOfJoin(parts: seq<string>, sep: char)
    requires |parts| >= 1
    requires forall i :: 0 <= i < |parts| ==> sep !in parts[i]
    ensures Fields(Join(parts, sep), sep) == parts
  {
    if |parts| == 1 {
      assert Join(parts, sep) == parts[0];
    } else {
      var p0 := parts[0];
      var tail := Join(parts[1..], sep);
      var s := p0 + [sep] + tail;
      assert Join(parts, sep) == s;
      assert s[..|p0|] == p0 && s[|p0| + 1..] == tail;
      FieldsCons(s, sep, |p0|);
      FieldsOfJoin(parts[1..], sep);
      assert parts == [p0] + parts[1..];
    }
  }

  function Last<T>(xs: seq<T>): T
    requires |xs| > 0
  {
    xs[|xs| - 1]
  }

  /** The last field is everything after the last separator. */
  lemma {:induction false} FieldsLast(s: string, sep: char)
    ensures Last(Fields(s, sep)) == s[LastIndexOf(s, sep) + 1..]
    decreases |s|
  {
    if sep !in s {
      LastIndexOfUnique(s, sep, -1);
      assert Fields(s, sep) == [s];
    } else {
      var k := IndexOf(s, sep);
      FieldsLast(s[k + 1..], sep);
      FieldsLastStep(s, sep, k);
    }
  }

  /** The step of `FieldsLast`: past the first separator, the last field and the
      last separator are those of the rest of the string. */
  lemma FieldsLastStep(s: string, sep: char, k: nat)
    requires sep in s && k == IndexOf(s, sep)
    requires Last(Fields(s[k + 1..], sep)) == s[k + 1..][LastIndexOf(s[k + 1..], sep) + 1..]
    ensures Last(Fields(s, sep)) == s[LastIndexOf(s, sep) + 1..]
  {
    var rest := s[k + 1..];
    var l := LastIndexOf(rest, sep);
    FieldsCons(s, sep, k);
    LastOfAppend([s[..k]], Fields(rest, sep));
    LastIndexOfAfter(s, sep, k);
    SuffixOfSuffix(s, k + 1, l + 1);
  }

  lemma LastOfAppend<T>(xs: seq<T>, ys: seq<T>)
    requires |ys| > 0
    ensures Last(xs + ys) == Last(ys)
  {
  }

  /** Removes the trailing empty strings, as `String.split` with limit 0 does. */
  function DropTrailingEmpty(parts: seq<string>): (r: seq<string>)
    ensures |r| <= |parts| && r == parts[..|r|]
    ensures |r| > 0 ==> r[|r| - 1] != ""
    ensures forall i :: |r| <= i < |parts| ==> parts[i] == ""
  {
    if |parts| == 0 || parts[|parts| - 1] != "" then parts
    else DropTrailingEmpty(parts[..|parts| - 1])
  }

  /** `String.split` with a single-character pattern: a string without the
      separator yields itself; otherwise the fields with trailing empties removed. */
  function Split(s: string, sep: char): (r: seq<string>)
    ensures forall i :: 0 <= i < |r| ==> sep !in r[i]
    ensures sep !in s ==> r == [s]
    ensures sep in s ==> |r| <= |Fields(s, sep)| && r == Fields(s, sep)[..|r|]
    ensures sep in s ==> |r| == 0 || r[|r| - 1] != ""
  {
    if sep !in s then [s] else DropTrailingEmpty(Fields(s, sep))
  }

  /** A string that does not end in the separator splits into all of its fields,
      so joining the pieces restores it. */
  lemma SplitJoin(s: string, sep: char)
    requires |s| == 0 || s[|s| - 1] != sep
    ensures Split(s, sep) == Fields(s, sep)
    ensures Join(Split(s, sep), sep) == s
  {
    JoinOfFields(s, sep);
    if sep in s {
      FieldsLast(s, sep);
      assert |s[LastIndexOf(s, sep) + 1..]| > 0;
      assert Last(Fields(s, sep)) != "";
    }
  }

  /** The last piece of `Split` is the text after the last separator, provided the
      string does not end in the separator. */
  lemma SplitLast(s: string, sep: char)
    requires |s| == 0 || s[|s| - 1] != sep
    ensures |Split(s, sep)| > 0
    ensures Last(Split(s, sep)) == s[LastIndexOf(s, sep) + 1..]
  {
    SplitJoin(s, sep);
    FieldsLast(s, sep);
  }

  /** `String.replace(char, char)`. */
  function Replace(s: string, from: char, to: char): (r: string)
    ensures |r| == |s|
    ensures from != to ==> from !in r
  {
    seq(|s|, i requires 0 <= i < |s| => if s[i] == from then to else s[i])
  }

  /** Replacing back restores a string that did not hold the target character. */
  lemma ReplaceInverse(s: string, from: char, to: char)
    requires to !in s
    ensures Replace(Replace(s, from, to), to, from) == s
  {
    var r := Replace(s, from, to);
    var b := Replace(r, to, from);
    forall i | 0 <= i < |s|
      ensures b[i] == s[i]
    {
      assert s[i] != to;
    }
  }

  /** ASCII case folding (the model does not cover non-ASCII case mappings). */
  function ToUpper(c: char): char {
    if 'a' <= c <= 'z' then (c as int - 32) as char else c
  }

  /** `String.equalsIgnoreCase`. */
  predicate EqualsIgnoreCase(a: string, b: string) {
    |a| == |b| && forall i :: 0 <= i < |a| ==> ToUpper(a[i]) == ToUpper(b[i])
  }

  /** The first name that equals `name` ignoring case: the lookup a catalog
      collection performs in `getIgnoreCase`. */
  function FindIgnoreCase(names: seq<string>, name: string): (r: Option<nat>)
    ensures r.Some? ==> r.value < |names| && EqualsIgnoreCase(names[r.value], name)
    ensures r.Some? ==> forall j :: 0 <= j < r.value ==> !EqualsIgnoreCase(names[j], name)
    ensures r.None? <==> forall j :: 0 <= j < |names| ==> !EqualsIgnoreCase(names[j], name)
  {
    if |names| == 0 then None
    else if EqualsIgnoreCase(names[0], name) then Some(0)
    else
      match FindIgnoreCase(names[1..], name)
      case None => None
      case Some(k) => Some(k + 1)
  }

  /** The lookup does not depend on how the query is capitalised. */
  lemma FindIgnoreCaseInsensitive(names: seq<string>, a: string, b: string)
    requires EqualsIgnoreCase(a, b)
    ensures FindIgnoreCase(names, a) == FindIgnoreCase(names, b)
  {
    forall j | 0 <= j < |names|
      ensures EqualsIgnoreCase(names[j], a) <==> EqualsIgnoreCase(names[j], b)
    {
    }
  }
}
