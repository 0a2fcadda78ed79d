/** Reading one field out of a single entry's text: the first line that declares it. Field
    names are compared lower-cased, so `DOI = {...}` declares the field `doi`. */
module EntryFields {

  import opened Wrappers
  import opened Text
  import opened BibLine

  /** The field declaration of each line, in line order. */
  function Decls(lines: seq<string>): (ds: seq<Option<FieldDecl>>)
    ensures |ds| == |lines| && forall i :: 0 <= i < |lines| ==> ds[i] == DeclaredField(lines[i])
  {
    seq(|lines|, i requires 0 <= i < |lines| => DeclaredField(lines[i]))
  }

  predicate Declares(d: Option<FieldDecl>, name: string) {
    d.Some? && d.value.name == name
  }

  /** The first declaration of `name` at or after `from`. */
  function FirstDeclaring(ds: seq<Option<FieldDecl>>, name: string, from: nat): (r: Option<nat>)
    requires from <= |ds|
    ensures r.Some? ==> from <= r.value < |ds| && Declares(ds[r.value], name)
    ensures r.Some? ==> forall j :: from <= j < r.value ==> !Declares(ds[j], name)
    ensures r.None? ==> forall j :: from <= j < |ds| ==> !Declares(ds[j], name)
    decreases |ds| - from
  {
    if from == |ds| then None
    else if Declares(ds[from], name) then Some(from)
    else FirstDeclaring(ds, name, from + 1)
  }

  /** The first line of an entry that declares the field `name`. */
  function FieldLine(lines: seq<string>, name: string): (r: Option<nat>)
    ensures r.Some? ==> r.value < |lines| && Declares(DeclaredField(lines[r.value]), name)
    ensures r.Some? ==> forall j :: 0 <= j < r.value ==> !Declares(DeclaredField(lines[j]), name)
    ensures r.None? ==> forall j :: 0 <= j < |lines| ==> !Declares(DeclaredField(lines[j]), name)
  {
    FirstDeclaring(Decls(lines), name, 0)
  }

  /** Replacing one line by a line with the same declaration finds the same field lines. */
  lemma FieldLineReplace(lines: seq<string>, i: nat, line: string, name: string)
    requires i < |lines| && DeclaredField(line) == DeclaredField(lines[i])
    ensures FieldLine(lines[i := line], name) == FieldLine(lines, name)
  {
    assert Decls(lines[i := line]) == Decls(lines);
  }
}
