/**
 * The tokenizer of helperlib.cpp.
 *
 * `SplitString` is the imperative tokenizer, proved equal to `Split`.  For a
 * delimiter of one character `Split` is tied to `FieldsBy`, a reference
 * definition that goes character by character and never searches.
 */
module Tokenizer {
  import opened Wrappers
  import opened Sequences

  // ---------------------------------------------------------------- searching

  predicate OccursAt(s: string, d: string, i: nat) {
    i + |d| <= |s| && s[i..i + |d|] == d
  }

  /** std::wstring::find from position 0; None is npos. */
  function Find(s: string, d: string): (r: Option<nat>)
    ensures r.Some? ==> r.value + |d| <= |s|
  {
    if |s| < |d| then None
    else if d <= s then Some(0)
    else
      var tail := Find(s[1..], d);
      if tail.None? then None else Some(tail.value + 1)
  }

  lemma OccursShifted(s: string, d: string, j: nat)
    requires s != ""
    ensures OccursAt(s[1..], d, j) <==> OccursAt(s, d, j + 1)
  {
    if j + 1 + |d| <= |s| {
      assert s[1..][j..j + |d|] == s[j + 1..j + 1 + |d|];
    }
  }

  /** Find returns the first occurrence, and npos exactly when there is none. */
  lemma {:induction false} FindIsFirst(s: string, d: string)
    ensures Find(s, d).Some? ==> OccursAt(s, d, Find(s, d).value)
    ensures forall j: nat :: OccursAt(s, d, j) ==> Find(s, d).Some? && Find(s, d).value <= j
  {
    if |s| >= |d| && !(d <= s) {
      FindIsFirst(s[1..], d);
      var tail := Find(s[1..], d);
      if tail.Some? {
        OccursShifted(s, d, tail.value);
      }
      forall j: nat | OccursAt(s, d, j) ensures Find(s, d).Some? && Find(s, d).value <= j {
        if j > 0 {
          OccursShifted(s, d, j - 1);
        }
      }
    }
  }

  // ------------------------------------------------------------- split_string

  /** The tokens found from the current position on; the search resumes one character after a hit. */
  function Tokens(temp: string, d: string, includeEmpties: bool): (r: seq<string>)
    requires d != ""
    ensures r != []
    decreases |temp|
  {
    match Find(temp, d)
    case None => [temp]
    case Some(i) =>
      (if i > 0 || includeEmpties then [temp[..i]] else []) + Tokens(temp[i + 1..], d, includeEmpties)
  }

  function StripLeadingSlash(s: string): string {
    if s != "" && s[0] == '/' then s[1..] else s
  }

  function Split(input: string, d: string, includeEmpties: bool): seq<string> {
    if input == "" || d == "" then [] else Tokens(StripLeadingSlash(input), d, includeEmpties)
  }

  /** The caller's std::vector<std::wstring>. */
  class StringVector {
    var items: seq<string>

    constructor ()
      ensures items == []
    {
      items := [];
    }

    method PushBack(s: string)
      modifies this
      ensures items == old(items) + [s]
    {
      items := items + [s];
    }
  }

  lemma TokensStep(found: seq<string>, temp: string, d: string, includeEmpties: bool)
    requires d != "" && Find(temp, d).Some?
    ensures var i := Find(temp, d).value;
            found + Tokens(temp, d, includeEmpties)
            == (if i > 0 || includeEmpties then found + [temp[..i]] else found)
               + Tokens(temp[i + 1..], d, includeEmpties)
  {
  }

  method SplitString(input: string, delimiter: string, results: StringVector, includeEmpties: bool)
    returns (numFound: int)
    modifies results
    ensures results.items == old(results.items) + Split(input, delimiter, includeEmpties)
    ensures numFound == |Split(input, delimiter, includeEmpties)|
  {
    var delimSize := |delimiter|;
    var iSize := |input|;
    numFound := 0;
    var temp := input;
    if iSize == 0 || delimSize == 0 {
      EmptyConcat(results.items);
      return 0;
    }
    if temp[0] == '/' {
      temp := temp[1..];
    }
    var iPos := Find(temp, delimiter);
    if iPos.None? {
      results.PushBack(temp);
      numFound := numFound + 1;
      return numFound;
    }
    ghost var all := old(results.items) + Split(input, delimiter, includeEmpties);
    while iPos.Some?
      invariant iPos == Find(temp, delimiter)
      invariant numFound == |results.items| - |old(results.items)|
      invariant results.items + Tokens(temp, delimiter, includeEmpties) == all
      decreases |temp|
    {
      var token := temp[..iPos.value];
      TokensStep(results.items, temp, delimiter, includeEmpties);
      if |token| > 0 || (|token| == 0 && includeEmpties) {
        results.PushBack(token);
        numFound := numFound + 1;
      }
      temp := temp[iPos.value + 1..];
      iPos := Find(temp, delimiter);
    }
    results.PushBack(temp);
    numFound := numFound + 1;
  }

  // ------------------------------------------- the reference: delimited fields

  /** The fields of s between occurrences of c, empty ones included. */
  function FieldsBy(s: string, c: char): (r: seq<string>)
    ensures r != []
  {
    if s == "" then [""]
    else if s[0] == c then [""] + FieldsBy(s[1..], c)
    else Prepend(s[0], FieldsBy(s[1..], c))
  }

  function Prepend(c: char, fields: seq<string>): (r: seq<string>)
    requires fields != []
    ensures |r| == |fields|
  {
    [[c] + fields[0]] + fields[1..]
  }

  function Join(fields: seq<string>, c: char): string {
    if fields == [] then ""
    else if |fields| == 1 then fields[0]
    else fields[0] + [c] + Join(fields[1..], c)
  }

  function NonEmpty(fields: seq<string>): (r: seq<string>) {
    if fields == [] then []
    else (if fields[0] == "" then [] else [fields[0]]) + NonEmpty(fields[1..])
  }

  /** Every field but the last is dropped when empty; the last is always kept. */
  function DropEmptyInit(fields: seq<string>): seq<string>
    requires fields != []
  {
    NonEmpty(fields[..|fields| - 1]) + [fields[|fields| - 1]]
  }

  lemma PrependConcat(c: char, x: seq<string>, y: seq<string>)
    requires x != []
    ensures Prepend(c, x + y) == Prepend(c, x) + y
  {
    HeadTail(x, y);
    Assoc([[c] + x[0]], x[1..], y);
  }

  lemma {:induction false} FieldsByConcat(a: string, b: string, c: char)
    ensures FieldsBy(a + [c] + b, c) == FieldsBy(a, c) + FieldsBy(b, c)
  {
    Assoc(a, [c], b);
    if a == "" {
      HeadTail([c], b);
      EmptyConcat([c] + b);
      EmptyConcat(b);
    } else {
      HeadTail(a, [c] + b);
      Assoc(a[1..], [c], b);
      FieldsByConcat(a[1..], b, c);
      if a[0] == c {
        Assoc([""], FieldsBy(a[1..], c), FieldsBy(b, c));
      } else {
        PrependConcat(a[0], FieldsBy(a[1..], c), FieldsBy(b, c));
      }
    }
  }

  lemma {:induction false} FieldsByFree(s: string, c: char)
    ensures forall t :: t in FieldsBy(s, c) ==> c !in t
  {
    if s != "" {
      FieldsByFree(s[1..], c);
    }
  }

  lemma {:induction false} FieldsByOfName(s: string, c: char)
    requires c !in s
    ensures FieldsBy(s, c) == [s]
  {
    if s != "" {
      FieldsByOfName(s[1..], c);
      assert s == [s[0]] + s[1..];
    }
  }

  /** Joining the fields gives the string back. */
  lemma {:induction false} JoinFields(s: string, c: char)
    ensures Join(FieldsBy(s, c), c) == s
  {
    if s != "" {
      JoinFields(s[1..], c);
      assert s == [s[0]] + s[1..];
      var rest := FieldsBy(s[1..], c);
      if s[0] == c {
        assert FieldsBy(s, c)[1..] == rest;
      } else {
        assert FieldsBy(s, c)[1..] == rest[1..];
      }
    }
  }

  /** The fields of joined names without the delimiter are those names. */
  lemma {:induction false} FieldsJoin(names: seq<string>, c: char)
    requires names != [] && forall n :: n in names ==> c !in n
    ensures FieldsBy(Join(names, c), c) == names
  {
    FieldsByOfName(names[0], c);
    if |names| > 1 {
      FieldsJoin(names[1..], c);
      FieldsByConcat(names[0], Join(names[1..], c), c);
      ConsHeadTail(names);
    }
  }

  lemma {:induction false} NonEmptyConcat(a: seq<string>, b: seq<string>)
    ensures NonEmpty(a + b) == NonEmpty(a) + NonEmpty(b)
  {
    if a == [] {
      EmptyConcat(b);
      EmptyConcat(NonEmpty(b));
    } else {
      HeadTail(a, b);
      NonEmptyConcat(a[1..], b);
      Assoc(if a[0] == "" then [] else [a[0]], NonEmpty(a[1..]), NonEmpty(b));
    }
  }

  lemma {:induction false} NonEmptyMembers(fields: seq<string>)
    ensures forall t :: t in NonEmpty(fields) <==> t in fields && t != ""
  {
    if fields != [] {
      NonEmptyMembers(fields[1..]);
      assert fields == [fields[0]] + fields[1..];
    }
  }

  lemma DropEmptyInitConcat(a: seq<string>, b: seq<string>)
    requires b != []
    ensures DropEmptyInit(a + b) == NonEmpty(a) + DropEmptyInit(b)
  {
    InitLast(a, b);
    NonEmptyConcat(a, b[..|b| - 1]);
    Assoc(NonEmpty(a), NonEmpty(b[..|b| - 1]), [b[|b| - 1]]);
  }

  lemma {:induction false} NonEmptyKeeps(fields: seq<string>)
    requires forall i :: 0 <= i < |fields| ==> fields[i] != ""
    ensures NonEmpty(fields) == fields
  {
    if fields != [] {
      NonEmptyKeeps(fields[1..]);
    }
  }

  lemma {:induction false} DelimiterFound(s: string, c: char)
    ensures Find(s, [c]).None? ==> c !in s
    ensures Find(s, [c]).Some? ==> var i := Find(s, [c]).value;
                                   c !in s[..i] && s == s[..i] + [c] + s[i + 1..]
  {
    if s != "" && s[0] != c {
      DelimiterFound(s[1..], c);
      var tail := Find(s[1..], [c]);
      if tail.Some? {
        assert s[..tail.value + 1] == [s[0]] + s[1..][..tail.value];
        assert s[tail.value + 2..] == s[1..][tail.value + 1..];
      }
    }
  }

  /** The searching tokenizer computes the fields, or the fields without the empty inner ones. */
  lemma {:induction false} TokensAreFields(s: string, c: char, includeEmpties: bool)
    ensures Tokens(s, [c], includeEmpties)
         == if includeEmpties then FieldsBy(s, c) else DropEmptyInit(FieldsBy(s, c))
    decreases |s|
  {
    DelimiterFound(s, c);
    match Find(s, [c])
    case None =>
      FieldsByOfName(s, c);
    case Some(i) =>
      TokensAreFields(s[i + 1..], c, includeEmpties);
      FieldsByConcat(s[..i], s[i + 1..], c);
      FieldsByOfName(s[..i], c);
      DropEmptyInitConcat([s[..i]], FieldsBy(s[i + 1..], c));
  }

  /**
   * With empties kept, the tokens are exactly the fields after one leading '/'
   * is removed: none contains the delimiter, and joined they give the input
   * back but for that '/'.
   */
  lemma SplitKeepingEmpties(input: string, c: char)
    requires input != ""
    ensures Split(input, [c], true) == FieldsBy(if input[0] == '/' then input[1..] else input, c)
    ensures Join(Split(input, [c], true), c) == if input[0] == '/' then input[1..] else input
    ensures forall t :: t in Split(input, [c], true) ==> c !in t
  {
    TokensAreFields(StripLeadingSlash(input), c, true);
    FieldsByFree(StripLeadingSlash(input), c);
    JoinFields(StripLeadingSlash(input), c);
  }

  /** Nothing is found in an empty input or with an empty delimiter, and something in every other case. */
  lemma SplitNothing(input: string, d: string, includeEmpties: bool)
    ensures Split(input, d, includeEmpties) == [] <==> input == "" || d == ""
  {
  }

  /**
   * With empties dropped, for an input that does not begin with a slash: the
   * non-empty fields, and the last one always.
   */
  lemma SplitDroppingEmpties(input: string, c: char)
    requires input != "" && input[0] != '/'
    ensures var fields := FieldsBy(input, c);
            Split(input, [c], false) == NonEmpty(fields[..|fields| - 1]) + [fields[|fields| - 1]]
  {
    TokensAreFields(input, c, false);
  }

  /** A longer delimiter is not skipped as a whole: the search goes on behind its first character. */
  lemma LongDelimiter()
    ensures Split("a--b", "--", true) == ["a", "-b"]
    ensures Split("a---b", "--", true) == ["a", "", "-b"]
  {
    var d := "--";
    FoundSecond("a--b", d);
    FoundSecond("a---b", d);
    assert "a--b"[..1] == "a" && "a--b"[2..] == "-b";
    assert "a---b"[..1] == "a" && "a---b"[2..] == "--b";
    assert "--b"[..0] == "" && "--b"[1..] == "-b";
    assert "-b"[1..] == "b" && Find("b", d) == None && Find("-b", d) == None;
    assert Tokens("-b", d, true) == ["-b"];
    assert Tokens("--b", d, true) == [""] + ["-b"];
  }

  lemma FoundSecond(s: string, d: string)
    requires d != "" && s != "" && s[0] != d[0] && d <= s[1..]
    ensures Find(s, d) == Some(1)
  {
    assert !(d <= s);
  }

  lemma JoinStart(names: seq<string>, c: char)
    requires names != [] && names[0] != ""
    ensures Join(names, c) != "" && Join(names, c)[0] == names[0][0]
  {
    if |names| > 1 {
      Assoc(names[0], [c], Join(names[1..], c));
      HeadTail(names[0], [c] + Join(names[1..], c));
    }
  }

  lemma DropEmptyKeeps(names: seq<string>)
    requires names != [] && forall n :: n in names ==> n != ""
    ensures DropEmptyInit(names) == names
  {
    var init := names[..|names| - 1];
    forall i | 0 <= i < |init| ensures init[i] != "" {
      assert init[i] in names;
    }
    NonEmptyKeeps(init);
    SnocInitLast(names);
  }

  /** Joining non-empty names without the delimiter and splitting the result is the identity. */
  lemma SplitOfJoin(names: seq<string>, c: char)
    requires names != [] && forall n :: n in names ==> n != "" && c !in n
    requires names[0] != "" && names[0][0] != '/'
    ensures Split(Join(names, c), [c], false) == names
  {
    FieldsJoin(names, c);
    JoinStart(names, c);
    TokensAreFields(Join(names, c), c, false);
    DropEmptyKeeps(names);
  }
}
