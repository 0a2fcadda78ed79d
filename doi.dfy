/** DOI identity: the value of an entry's `doi` field, trimmed, lower-cased and stripped of a
    resolver-URL prefix, so that `https://doi.org/10.1007/S13347` and `10.1007/s13347` name the
    same work. The deduplication uses it as a second identity beside the citation key. */
module Doi {

  import opened Wrappers
  import opened Text
  import opened BibLine
  import opened EntryFields

  const DoiOrg: string := "https://doi.org/"
  const DxDoiOrg: string := "https://dx.doi.org/"

  /** Whether the text starts with one of the resolver prefixes. */
  predicate HasResolver(d: string) {
    StartsWith(d, DoiOrg) || StartsWith(d, DxDoiOrg)
  }

  /** The text without its resolver prefix, when it has one. */
  function StripResolver(d: string): (r: string)
    ensures |r| <= |d| && r == d[|d| - |r|..]
    ensures !HasResolver(d) ==> r == d
  {
    if StartsWith(d, DoiOrg) then d[|DoiOrg|..]
    else if StartsWith(d, DxDoiOrg) then d[|DxDoiOrg|..]
    else d
  }

  /** The normal form of a DOI value: trimmed, lower-cased, without resolver prefix. */
  function NormalizeDoi(raw: string): string {
    StripResolver(Lower(Trim(raw)))
  }

  /** The text between the braces of a value `{...}` that starts, after optional whitespace, at
      `start`; the value ends at the first '}' and must not be empty. */
  function BracedValue(line: string, start: nat): (v: Option<string>)
    requires start <= |line|
    ensures v.Some? ==> v.value != [] && '}' !in v.value
  {
    var k := SkipSpaces(line, start);
    if k < |line| && line[k] == '{' then
      match IndexOfFrom(line, '}', k + 1)
      case None => None
      case Some(e) => if e == k + 1 then None else Some(line[k + 1..e])
    else None
  }

  /** The normalised DOI of an entry given as lines: the braced value of its first `doi`
      declaration. An empty normal form counts as no DOI. */
  function DoiOfLines(lines: seq<string>): Option<string> {
    match FieldLine(lines, "doi")
    case None => None
    case Some(i) =>
      match BracedValue(lines[i], DeclaredField(lines[i]).value.valueStart)
      case None => None
      case Some(raw) => var d := NormalizeDoi(raw); if d == [] then None else Some(d)
  }

  /** `extract_doi`. */
  function ExtractDoi(entry: string): Option<string> {
    DoiOfLines(SplitLines(entry))
  }

  // ---------------------------------------------------------------------------------------
  // What the normal form promises

  /** A normal form has no upper-case letter. */
  lemma NormalizedIsLower(raw: string)
    ensures forall i :: 0 <= i < |NormalizeDoi(raw)| ==> !('A' <= NormalizeDoi(raw)[i] <= 'Z')
  {
    var l := Lower(Trim(raw));
    var r := NormalizeDoi(raw);
    forall i | 0 <= i < |r| ensures !('A' <= r[i] <= 'Z') {
      assert r[i] == l[|l| - |r| + i];
    }
  }

  /** Letter case does not matter: values equal up to case have the same normal form. */
  lemma NormalizeIgnoresCase(a: string, b: string)
    requires Lower(a) == Lower(b)
    ensures NormalizeDoi(a) == NormalizeDoi(b)
  {
    TrimLower(a);
    TrimLower(b);
  }

  /** The resolver prefixes are lower-case already. */
  lemma ResolversLower()
    ensures Lower(DoiOrg) == DoiOrg && Lower(DxDoiOrg) == DxDoiOrg
  {
  }

  /** Behind a resolver prefix, or bare, a DOI has the same normal form: its lower-case
      spelling. A bare DOI is one without surrounding whitespace that does not itself start
      with a resolver prefix. */
  lemma ResolverForms(d: string)
    requires d == [] || (!IsSpace(d[0]) && !IsSpace(d[|d| - 1]))
    requires !HasResolver(Lower(d))
    ensures NormalizeDoi(DoiOrg + d) == Lower(d)
    ensures NormalizeDoi(DxDoiOrg + d) == Lower(d)
    ensures NormalizeDoi(d) == Lower(d)
  {
    TrimOfTrimmed(d);
    ResolversLower();
    Prefixed(DoiOrg, d);
    Prefixed(DxDoiOrg, d);
  }

  /** Whitespace around a DOI does not enter its normal form. */
  lemma SpacesAround(pre: string, d: string, post: string)
    requires forall i :: 0 <= i < |pre| ==> IsSpace(pre[i])
    requires forall i :: 0 <= i < |post| ==> IsSpace(post[i])
    requires d != [] && !IsSpace(d[0]) && !IsSpace(d[|d| - 1])
    requires !HasResolver(Lower(d))
    ensures NormalizeDoi(pre + d + post) == Lower(d)
  {
    TrimAround(pre, d, post);
  }

  lemma Prefixed(p: string, d: string)
    requires p == DoiOrg || p == DxDoiOrg
    requires d == [] || (!IsSpace(d[0]) && !IsSpace(d[|d| - 1]))
    requires Lower(p) == p
    ensures NormalizeDoi(p + d) == Lower(d)
  {
    var s := p + d;
    assert s[0] == 'h' && s[|s| - 1] == (if d == [] then '/' else d[|d| - 1]);
    TrimOfTrimmed(s);
    LowerAppend(p, d);
    var l := p + Lower(d);
    assert l[..|p|] == p;
    if p == DxDoiOrg {
      assert l[..|DoiOrg|][9] == 'x';
      assert !StartsWith(l, DoiOrg);
    }
    assert l[|p|..] == Lower(d);
  }

  /** Normalising a normal form changes nothing, unless a second resolver prefix surfaces. */
  lemma NormalizeAgain(raw: string)
    requires !HasResolver(NormalizeDoi(raw))
    requires NormalizeDoi(raw) == [] || (!IsSpace(NormalizeDoi(raw)[0]) && !IsSpace(NormalizeDoi(raw)[|NormalizeDoi(raw)| - 1]))
    ensures NormalizeDoi(NormalizeDoi(raw)) == NormalizeDoi(raw)
  {
    NormalizedIsLower(raw);
    NormalFormFixed(NormalizeDoi(raw));
  }

  /** A trimmed, lower-case text without resolver prefix is its own normal form. */
  lemma NormalFormFixed(d: string)
    requires d == [] || (!IsSpace(d[0]) && !IsSpace(d[|d| - 1]))
    requires forall i :: 0 <= i < |d| ==> !('A' <= d[i] <= 'Z')
    requires !HasResolver(d)
    ensures NormalizeDoi(d) == d
  {
    TrimOfTrimmed(d);
    assert Lower(d) == d;
  }

  // ---------------------------------------------------------------------------------------
  // What extract_doi promises

  /** An entry without a `doi` declaration has no DOI. */
  lemma NoDoiField(entry: string)
    requires forall j :: 0 <= j < |SplitLines(entry)| ==> !Declares(DeclaredField(SplitLines(entry)[j]), "doi")
    ensures ExtractDoi(entry) == None
  {
  }

  /** A DOI comes from the first `doi` declaration: it is the normal form of that
      declaration's braced value, and it is not empty. */
  lemma DoiSound(entry: string)
    requires ExtractDoi(entry).Some?
    ensures var lines := SplitLines(entry);
            && FieldLine(lines, "doi").Some?
            && var i := FieldLine(lines, "doi").value;
               && BracedValue(lines[i], DeclaredField(lines[i]).value.valueStart).Some?
               && ExtractDoi(entry).value != []
               && ExtractDoi(entry).value == NormalizeDoi(BracedValue(lines[i], DeclaredField(lines[i]).value.valueStart).value)
  {
  }

  /** The declaration `  name = {value}`, in any letter case of `name`, declares the field
      named by the lower-cased name, and its braced value is `value`. */
  lemma DeclarationLine(name: string, value: string)
    requires name != [] && forall i :: 0 <= i < |name| ==> IsWordChar(name[i])
    requires value != [] && '}' !in value
    ensures var line := "  " + name + " = {" + value + "}";
            && DeclaredField(line) == Some(FieldDecl(Lower(name), |name| + 4))
            && BracedValue(line, |name| + 4) == Some(value)
  {
    DeclaredName(name, value);
    BracedPart(name, value);
  }

  /** The field declared by `  name = {value}`. */
  lemma DeclaredName(name: string, value: string)
    requires name != [] && forall i :: 0 <= i < |name| ==> IsWordChar(name[i])
    ensures DeclaredField("  " + name + " = {" + value + "}") == Some(FieldDecl(Lower(name), |name| + 4))
  {
    var line := "  " + name + " = {" + value + "}";
    var n := |name|;
    assert line[0] == ' ' && line[1] == ' ';
    assert !IsHeader(line);
    assert SkipSpaces(line, 0) == 2 by {
      assert SkipSpaces(line, 2) == 2 by {
        assert line[2] == name[0];
      }
    }
    forall i | 2 <= i < 2 + n ensures IsWordChar(line[i]) {
      assert line[i] == name[i - 2];
    }
    assert line[2 + n] == ' ' && line[3 + n] == '=';
    WordRunExact(line, 2, n);
    assert SkipSpaces(line, 2 + n) == 3 + n;
    assert line[2..2 + n] == name;
  }

  /** The braced value of `  name = {value}`, read after its '='. */
  lemma BracedPart(name: string, value: string)
    requires value != [] && '}' !in value
    ensures BracedValue("  " + name + " = {" + value + "}", |name| + 4) == Some(value)
  {
    var line := "  " + name + " = {" + value + "}";
    var n := |name|;
    assert line[4 + n] == ' ' && line[5 + n] == '{';
    assert SkipSpaces(line, 4 + n) == 5 + n;
    var e := |line| - 1;
    assert line[e] == '}';
    forall j | 6 + n <= j < e ensures line[j] != '}' {
      assert line[j] == value[j - 6 - n];
    }
    assert IndexOfFrom(line, '}', 6 + n) == Some(e);
    assert line[6 + n..e] == value;
  }

  /** An entry whose first `doi` declaration is the line `  DOI = {value}` (any letter case)
      has the normal form of `value` as its DOI, when that is not empty. */
  lemma DoiOfDeclaration(lines: seq<string>, i: nat, name: string, value: string)
    requires i < |lines| && forall j :: 0 <= j < |lines| ==> '\n' !in lines[j]
    requires name != [] && forall k :: 0 <= k < |name| ==> IsWordChar(name[k])
    requires Lower(name) == "doi" && value != [] && '}' !in value
    requires lines[i] == "  " + name + " = {" + value + "}"
    requires forall j :: 0 <= j < i ==> !Declares(DeclaredField(lines[j]), "doi")
    ensures NormalizeDoi(value) != [] ==> ExtractDoi(JoinLines(lines)) == Some(NormalizeDoi(value))
    ensures NormalizeDoi(value) == [] ==> ExtractDoi(JoinLines(lines)) == None
  {
    SplitJoin(lines);
    DeclarationLine(name, value);
    DoiAt(lines, i, |name| + 4, value);
  }

  lemma DoiAt(lines: seq<string>, i: nat, start: nat, value: string)
    requires i < |lines| && DeclaredField(lines[i]) == Some(FieldDecl("doi", start))
    requires forall j :: 0 <= j < i ==> !Declares(DeclaredField(lines[j]), "doi")
    requires start <= |lines[i]| && BracedValue(lines[i], start) == Some(value)
    ensures NormalizeDoi(value) != [] ==> DoiOfLines(lines) == Some(NormalizeDoi(value))
    ensures NormalizeDoi(value) == [] ==> DoiOfLines(lines) == None
  {
    assert Declares(DeclaredField(lines[i]), "doi");
    assert FieldLine(lines, "doi") == Some(i);
  }
}
