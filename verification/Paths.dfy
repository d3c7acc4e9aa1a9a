/**
 * Device paths: their fields and components, file names, and lower-casing.
 */
module Paths {
  import opened Wrappers
  import opened Sequences
  import opened Tokenizer

  /** std::wstring::find_last_of for a single character. */
  function FindLast(s: string, c: char): (r: Option<nat>)
    ensures r.Some? ==> r.value < |s| && s[r.value] == c && c !in s[r.value + 1..]
    ensures r.None? ==> c !in s
  {
    if s == "" then None
    else if s[|s| - 1] == c then Some(|s| - 1)
    else
      assert s == s[..|s| - 1] + [s[|s| - 1]];
      FindLast(s[..|s| - 1], c)
  }

  /** The file name part: what follows the last '/', or the whole path when there is none. */
  function FileName(path: string): (r: string)
    ensures '/' !in r
  {
    match FindLast(path, '/')
    case None => path
    case Some(i) => path[i + 1..]
  }

  predicate EndsInSlash(path: string) {
    path != "" && path[|path| - 1] == '/'
  }

  // -------------------------------------------------------------- lower-casing

  function LowerChar(c: char): char {
    if 'A' <= c <= 'Z' then (c as int + 32) as char else c
  }

  /** CString::MakeLower in the C locale. */
  function Lower(s: string): (r: string)
    ensures |r| == |s| && forall i :: 0 <= i < |s| ==> r[i] == LowerChar(s[i])
  {
    seq(|s|, i requires 0 <= i < |s| => LowerChar(s[i]))
  }

  function LowerAll(names: seq<string>): (r: seq<string>)
    ensures |r| == |names| && forall i :: 0 <= i < |names| ==> r[i] == Lower(names[i])
  {
    seq(|names|, i requires 0 <= i < |names| => Lower(names[i]))
  }

  const UPPER: string := "ABCDEFGHIJKLMNOPQRSTUVWXYZ"
  const LOWER: string := "abcdefghijklmnopqrstuvwxyz"

  /** The two cases of the k-th letter of the alphabet. */
  predicate Cases(x: char, y: char, k: nat)
    requires k < 26
  {
    (x == UPPER[k] && y == LOWER[k]) || (x == LOWER[k] && y == UPPER[k])
  }

  /** The same character, or the two cases of one letter. */
  predicate SameLetter(x: char, y: char) {
    x == y || exists k :: 0 <= k < 26 && Cases(x, y, k)
  }

  predicate SameUpToCase(a: string, b: string) {
    |a| == |b| && forall i :: 0 <= i < |a| ==> SameLetter(a[i], b[i])
  }

  lemma AlphabetAt(k: nat)
    requires k < 26
    ensures UPPER[k] as int == 'A' as int + k && LOWER[k] as int == 'a' as int + k
  {
  }

  lemma SameLetterLowered(x: char, y: char)
    requires SameLetter(x, y)
    ensures LowerChar(x) == LowerChar(y)
  {
    if x != y {
      var k :| 0 <= k < 26 && Cases(x, y, k);
      AlphabetAt(k);
    }
  }

  lemma LoweredSameLetter(x: char, y: char)
    requires LowerChar(x) == LowerChar(y) && x < y
    ensures SameLetter(x, y) && SameLetter(y, x)
  {
    var k := x as int - 'A' as int;
    AlphabetAt(k);
    assert Cases(x, y, k) && Cases(y, x, k);
  }

  lemma LetterCases(x: char, y: char)
    ensures LowerChar(x) == LowerChar(y) <==> SameLetter(x, y)
  {
    if SameLetter(x, y) {
      SameLetterLowered(x, y);
    }
    if LowerChar(x) == LowerChar(y) && x != y {
      if x < y {
        LoweredSameLetter(x, y);
      } else {
        LoweredSameLetter(y, x);
      }
    }
  }

  /**
   * What two strings have in common when they are equal after lower-casing:
   * at every place the same character or the two cases of one letter.  What
   * comes out has no capital letter and is the same string up to case.
   */
  lemma LowerExactly(a: string, b: string)
    ensures Lower(a) == Lower(b) <==> SameUpToCase(a, b)
    ensures SameUpToCase(Lower(a), a) && forall k :: 0 <= k < 26 ==> UPPER[k] !in Lower(a)
  {
    forall i | 0 <= i < |a| && i < |b| ensures LowerChar(a[i]) == LowerChar(b[i]) <==> SameLetter(a[i], b[i]) {
      LetterCases(a[i], b[i]);
    }
    assert Lower(a) == Lower(b) ==> |a| == |Lower(a)| == |Lower(b)| == |b|;
    if Lower(a) == Lower(b) {
      forall i | 0 <= i < |a| ensures SameLetter(a[i], b[i]) {
        assert Lower(a)[i] == Lower(b)[i];
      }
    }
    forall i | 0 <= i < |a| ensures SameLetter(Lower(a)[i], a[i]) {
      LetterCases(Lower(a)[i], a[i]);
    }
    forall k | 0 <= k < 26 ensures UPPER[k] !in Lower(a) {
      AlphabetAt(k);
    }
  }

  // ------------------------------------------------------- fields and components

  /** The slash-separated fields of a path, empty ones included. */
  function Fields(path: string): (r: seq<string>)
    ensures r != []
  {
    FieldsBy(path, '/')
  }

  /** What every device operation splits a path into. */
  function Components(path: string): seq<string> {
    Split(path, "/", false)
  }

  lemma FieldsConcat(a: string, b: string)
    ensures Fields(a + "/" + b) == Fields(a) + Fields(b)
  {
    assert "/" == ['/'];
    FieldsByConcat(a, b, '/');
  }

  lemma FieldsOfName(s: string)
    requires '/' !in s
    ensures Fields(s) == [s]
  {
    FieldsByOfName(s, '/');
  }

  /**
   * What the device operations work with: the non-empty fields of the path,
   * followed by its last field even when that one is empty.
   */
  lemma ComponentsOfPath(path: string)
    requires path != ""
    ensures Components(path) == DropEmptyInit(Fields(path))
  {
    assert "/" == ['/'];
    TokensAreFields(StripLeadingSlash(path), '/', false);
    if path[0] == '/' {
      assert path == "" + "/" + path[1..];
      FieldsConcat("", path[1..]);
      DropEmptyInitConcat([""], Fields(path[1..]));
    }
  }

  lemma LastField(path: string)
    ensures var f := Fields(path); f[|f| - 1] == FileName(path)
  {
    match FindLast(path, '/')
    case None => FieldsOfName(path);
    case Some(i) =>
      assert path == path[..i] + "/" + path[i + 1..];
      FieldsConcat(path[..i], path[i + 1..]);
      FieldsOfName(path[i + 1..]);
  }

  /**
   * A non-empty path has at least one component, its last component is the
   * file name and all others are usable folder names: the folder loop of a
   * transfer runs over size() - 1 names without wrapping below zero.
   */
  lemma TransferComponents(dest: string)
    ensures Components(dest) == [] <==> dest == ""
    ensures dest != "" ==>
              var v := Components(dest);
              && v[|v| - 1] == FileName(dest)
              && forall i :: 0 <= i < |v| - 1 ==> v[i] != "" && '/' !in v[i]
  {
    if dest != "" {
      ComponentsOfPath(dest);
      LastField(dest);
      var f := Fields(dest);
      FieldsByFree(dest, '/');
      var init := NonEmpty(f[..|f| - 1]);
      NonEmptyMembers(f[..|f| - 1]);
      forall i | 0 <= i < |init| ensures init[i] != "" && '/' !in init[i] {
        assert init[i] in init;
      }
    }
  }

  lemma {:induction false} FindLastUnique(s: string, c: char, i: nat)
    requires i < |s| && s[i] == c && c !in s[i + 1..]
    ensures FindLast(s, c) == Some(i)
  {
    if i < |s| - 1 {
      assert s[|s| - 1] == s[i + 1..][|s| - i - 2];
      assert s[..|s| - 1][i + 1..] == s[i + 1..][..|s| - i - 2];
      FindLastUnique(s[..|s| - 1], c, i);
    }
  }

  /** Appending "/" and a name to any path appends exactly that name to its non-empty fields. */
  lemma ComponentsOfChild(parent: string, name: string)
    requires name != "" && '/' !in name
    ensures Components(parent + "/" + name) == NonEmpty(Fields(parent)) + [name]
  {
    ComponentsOfPath(parent + "/" + name);
    FieldsConcat(parent, name);
    FieldsOfName(name);
    DropEmptyInitConcat(Fields(parent), [name]);
  }

  /** The last slash of such a path is the one before the name. */
  lemma ChildFileName(parent: string, name: string)
    requires '/' !in name
    ensures FindLast(parent + "/" + name, '/') == Some(|parent|)
    ensures FileName(parent + "/" + name) == name
  {
    var path := parent + "/" + name;
    assert path[|parent|] == '/';
    assert path[|parent| + 1..] == name;
    FindLastUnique(path, '/', |parent|);
  }

  /** A path not ending in '/' has no empty component; one that does ends in an empty component. */
  lemma ComponentsByEnding(path: string)
    requires path != ""
    ensures !EndsInSlash(path) ==> Components(path) == NonEmpty(Fields(path))
    ensures EndsInSlash(path) ==> Components(path) == NonEmpty(Fields(path)) + [""]
  {
    ComponentsOfPath(path);
    LastField(path);
    FileNameEmpty(path);
    var f := Fields(path);
    var init, last := f[..|f| - 1], f[|f| - 1];
    NonEmptyConcat(init, [last]);
    SnocInitLast(f);
    NonEmptyOne(last);
    EmptyConcat(NonEmpty(init));
  }

  lemma NonEmptyOne(name: string)
    ensures NonEmpty([name]) == if name == "" then [] else [name]
  {
    assert [name][1..] == [];
    EmptyConcat([name]);
  }

  /** The components of a path that continues below another one. */
  lemma ComponentsBelow(path: string, rest: string)
    requires rest != ""
    ensures Components(path + "/" + rest) == NonEmpty(Fields(path)) + Components(rest)
  {
    ComponentsOfPath(path + "/" + rest);
    ComponentsOfPath(rest);
    FieldsConcat(path, rest);
    DropEmptyInitConcat(Fields(path), Fields(rest));
  }

  lemma FileNameEmpty(path: string)
    requires path != ""
    ensures FileName(path) == "" <==> EndsInSlash(path)
  {
  }

  lemma {:induction false} FieldsLower(s: string)
    ensures Fields(Lower(s)) == LowerAll(Fields(s))
  {
    if s != "" {
      FieldsLower(s[1..]);
      assert Lower(s)[1..] == Lower(s[1..]);
      if s[0] != '/' {
        assert Lower([s[0]] + Fields(s[1..])[0]) == [LowerChar(s[0])] + Lower(Fields(s[1..])[0]);
      }
    }
  }

  lemma {:induction false} NonEmptyLower(f: seq<string>)
    ensures NonEmpty(LowerAll(f)) == LowerAll(NonEmpty(f))
  {
    if f != [] {
      NonEmptyLower(f[1..]);
      assert LowerAll(f)[1..] == LowerAll(f[1..]);
      assert Lower(f[0]) == "" <==> f[0] == "";
    }
  }

  /** Splitting commutes with lower-casing. */
  lemma ComponentsLower(path: string)
    ensures Components(Lower(path)) == LowerAll(Components(path))
  {
    if path != "" {
      ComponentsOfPath(path);
      ComponentsOfPath(Lower(path));
      FieldsLower(path);
      var f := Fields(path);
      NonEmptyLower(f[..|f| - 1]);
      assert LowerAll(f)[..|f| - 1] == LowerAll(f[..|f| - 1]);
    }
  }

  lemma LowerKeepsSlashes(a: string, b: string)
    requires Lower(a) == Lower(b)
    ensures |a| == |b| && forall i :: 0 <= i < |a| ==> (a[i] == '/' <==> b[i] == '/')
    ensures a == "/" <==> b == "/"
    ensures a == "//" <==> b == "//"
  {
    assert |Lower(a)| == |Lower(b)|;
    forall i | 0 <= i < |a| ensures a[i] == '/' <==> b[i] == '/' {
      assert Lower(a)[i] == Lower(b)[i];
    }
  }

  /** Both spellings of the root have no non-empty field. */
  lemma RootFields()
    ensures NonEmpty(Fields("/")) == [] && NonEmpty(Fields("//")) == []
  {
    assert "/"[1..] == "" && "//"[1..] == "/";
    assert Fields("/") == [""] + [""];
    NonEmptyConcat([""], [""]);
    NonEmptyConcat([""], Fields("/"));
  }
}
