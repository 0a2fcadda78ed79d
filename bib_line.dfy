/** The line-level shapes every BibTeX component recognises: an entry header `@type{key,`
    starting at column 0, a field declaration `name = ...`, and the brace balance of a line. */
module BibLine {

  import opened Wrappers
  import opened Text

  /** Length of the run of word characters starting at `from`. */
  function WordRun(s: string, from: nat): (n: nat)
    requires from <= |s|
    ensures from + n <= |s|
    ensures forall i :: from <= i < from + n ==> IsWordChar(s[i])
    ensures from + n < |s| ==> !IsWordChar(s[from + n])
    decreases |s| - from
  {
    if from < |s| && IsWordChar(s[from]) then 1 + WordRun(s, from + 1) else 0
  }

  /** Position of the first non-whitespace character at or after `from`. */
  function SkipSpaces(s: string, from: nat): (k: nat)
    requires from <= |s|
    ensures from <= k <= |s|
    ensures forall i :: from <= i < k ==> IsSpace(s[i])
    ensures k < |s| ==> !IsSpace(s[k])
    decreases |s| - from
  {
    if from < |s| && IsSpace(s[from]) then SkipSpaces(s, from + 1) else from
  }

  /** Where the entry's opening brace is, when the line is an entry header: '@' at column 0, a
      non-empty word (the entry type), optional whitespace, then '{'. */
  function HeaderBrace(line: string): (b: Option<nat>)
    ensures b.Some? ==> 2 <= b.value < |line| && line[0] == '@' && line[b.value] == '{'
  {
    if |line| >= 1 && line[0] == '@' then
      var n := WordRun(line, 1);
      var k := SkipSpaces(line, 1 + n);
      if n > 0 && k < |line| && line[k] == '{' then Some(k) else None
    else None
  }

  predicate IsHeader(line: string) {
    HeaderBrace(line).Some?
  }

  /** The entry type named by a header, lower-cased (entry types match case-insensitively). */
  function EntryType(line: string): (t: string)
    requires IsHeader(line)
    ensures t != [] && forall i :: 0 <= i < |t| ==> IsWordChar(t[i])
  {
    Lower(line[1..1 + WordRun(line, 1)])
  }

  predicate IsCommentHeader(line: string) {
    IsHeader(line) && EntryType(line) == "comment"
  }

  /** Position of the first ',' after the header's opening brace. */
  function HeaderComma(line: string): (c: Option<nat>)
    requires IsHeader(line)
    ensures c.Some? ==> HeaderBrace(line).value < c.value < |line| && line[c.value] == ','
  {
    IndexOfFrom(line, ',', HeaderBrace(line).value + 1)
  }

  /** The citation key of a header: the text between '{' and the first ',', without surrounding
      whitespace. None when the header has no ',' or the key is empty. Keys keep their case. */
  function CitationKey(line: string): (k: Option<string>)
    requires IsHeader(line)
    ensures k.Some? ==> k.value != [] && ',' !in k.value
  {
    match HeaderComma(line)
    case None => None
    case Some(c) =>
      var key := Trim(line[HeaderBrace(line).value + 1..c]);
      if key == [] then None else Some(key)
  }

  /** The key a line contributes to the key index: that of a header that is not `@comment`. */
  function KeyOf(line: string): (k: Option<string>)
    ensures k.Some? ==> IsHeader(line) && !IsCommentHeader(line)
    ensures k.Some? ==> k.value != []
    ensures !IsHeader(line) || IsCommentHeader(line) ==> k.None?
  {
    if IsHeader(line) && !IsCommentHeader(line) then CitationKey(line) else None
  }

  /** A field declaration: its lower-cased name and the position just after its '='. */
  datatype FieldDecl = FieldDecl(name: string, valueStart: nat)

  /** `name =` at `from`, after optional whitespace. */
  function FieldAt(line: string, from: nat): (d: Option<FieldDecl>)
    requires from <= |line|
    ensures d.Some? ==> from < d.value.valueStart <= |line| && line[d.value.valueStart - 1] == '='
    ensures d.Some? ==> d.value.name != []
  {
    var k := SkipSpaces(line, from);
    NameThenEquals(line, k, WordRun(line, k))
  }

  /** The word line[k..k + n] followed, after optional whitespace, by '='. */
  function NameThenEquals(line: string, k: nat, n: nat): (d: Option<FieldDecl>)
    requires k + n <= |line|
    ensures d.Some? ==> k + n < d.value.valueStart <= |line| && line[d.value.valueStart - 1] == '='
    ensures d.Some? ==> d.value.name != []
  {
    var e := SkipSpaces(line, k + n);
    if n > 0 && e < |line| && line[e] == '=' then Some(FieldDecl(Lower(line[k..k + n]), e + 1))
    else None
  }

  /** The field a line declares: at the start of an ordinary line, or right after the key on
      a header line (`@article{k, title = {T}}`). */
  function DeclaredField(line: string): (d: Option<FieldDecl>)
    ensures d.Some? ==> 0 < d.value.valueStart <= |line| && line[d.value.valueStart - 1] == '='
  {
    if IsHeader(line) then
      match HeaderComma(line)
      case None => None
      case Some(c) => FieldAt(line, c + 1)
    else FieldAt(line, 0)
  }

  /** The line's brace balance: opening braces minus closing braces. */
  function BraceDelta(line: string): int {
    Count(line, '{') as int - Count(line, '}') as int
  }

  // ---------------------------------------------------------------------------------------
  // The header and the field declaration are read from the start of the line: a line that
  // agrees with another up to just past the '=' declares the same field.

  predicate Agree(s: string, t: string, k: nat) {
    k <= |s| && k <= |t| && s[..k] == t[..k]
  }

  lemma AgreeAt(s: string, t: string, k: nat)
    requires Agree(s, t, k)
    ensures forall i :: 0 <= i < k ==> s[i] == t[i]
  {
    forall i | 0 <= i < k ensures s[i] == t[i] {
      assert s[..k][i] == t[..k][i];
    }
  }

  lemma AgreeSlice(s: string, t: string, k: nat, i: nat, j: nat)
    requires Agree(s, t, k) && i <= j <= k
    ensures s[i..j] == t[i..j]
  {
    assert s[i..j] == s[..k][i..j];
    assert t[i..j] == t[..k][i..j];
  }

  /** A word run stops before any non-word character. */
  lemma WordRunStops(s: string, from: nat, k: nat)
    requires from <= k < |s| && !IsWordChar(s[k])
    ensures from + WordRun(s, from) <= k
  {
  }

  lemma {:induction false} WordRunAgree(s: string, t: string, from: nat, k: nat)
    requires from <= |s| && from <= |t|
    requires Agree(s, t, k) && from + WordRun(s, from) < k
    ensures WordRun(t, from) == WordRun(s, from)
    decreases |s| - from
  {
    assert s[from] == t[from] by {
      assert s[..k][from] == t[..k][from];
    }
    if IsWordChar(s[from]) {
      WordRunAgree(s, t, from + 1, k);
    }
  }

  /** A word of word characters running exactly to `from + n` has length n. */
  lemma {:induction false} WordRunExact(s: string, from: nat, n: nat)
    requires from + n <= |s|
    requires forall i :: from <= i < from + n ==> IsWordChar(s[i])
    requires from + n < |s| ==> !IsWordChar(s[from + n])
    ensures WordRun(s, from) == n
    decreases n
  {
    if n > 0 {
      WordRunExact(s, from + 1, n - 1);
    }
  }

  lemma {:induction false} SkipSpacesAgree(s: string, t: string, from: nat, k: nat)
    requires from <= |s| && from <= |t|
    requires Agree(s, t, k) && SkipSpaces(s, from) < k
    ensures SkipSpaces(t, from) == SkipSpaces(s, from)
    decreases |s| - from
  {
    assert s[from] == t[from] by {
      assert s[..k][from] == t[..k][from];
    }
    if IsSpace(s[from]) {
      SkipSpacesAgree(s, t, from + 1, k);
    }
  }

  lemma NameThenEqualsAgree(s: string, t: string, k: nat, n: nat, m: nat)
    requires k + n <= |s| && k + n <= |t|
    requires NameThenEquals(s, k, n).Some? && Agree(s, t, m) && NameThenEquals(s, k, n).value.valueStart <= m
    ensures NameThenEquals(t, k, n) == NameThenEquals(s, k, n)
  {
    var e := SkipSpaces(s, k + n);
    SkipSpacesAgree(s, t, k + n, m);
    assert s[e] == t[e] by {
      assert s[..m][e] == t[..m][e];
    }
    assert s[k..k + n] == t[k..k + n] by {
      assert s[k..k + n] == s[..m][k..k + n];
      assert t[k..k + n] == t[..m][k..k + n];
    }
  }

  lemma FieldAtAgree(s: string, t: string, from: nat, k: nat)
    requires from <= |s| && from <= |t|
    requires FieldAt(s, from).Some? && Agree(s, t, k) && FieldAt(s, from).value.valueStart <= k
    ensures FieldAt(t, from) == FieldAt(s, from)
  {
    var ks := SkipSpaces(s, from);
    SkipSpacesAgree(s, t, from, k);
    WordRunAgree(s, t, ks, k);
    NameThenEqualsAgree(s, t, ks, WordRun(s, ks), k);
  }

  lemma HeaderAgree(s: string, t: string, k: nat)
    requires IsHeader(s) && Agree(s, t, k) && HeaderBrace(s).value < k
    ensures HeaderBrace(t) == HeaderBrace(s) && IsHeader(t)
  {
    assert s[0] == t[0] by {
      assert s[..k][0] == t[..k][0];
    }
    WordRunAgree(s, t, 1, k);
    SkipSpacesAgree(s, t, 1 + WordRun(s, 1), k);
    var b := HeaderBrace(s).value;
    assert s[b] == t[b] by {
      assert s[..k][b] == t[..k][b];
    }
  }

  lemma EntryTypeAgree(s: string, t: string, k: nat)
    requires IsHeader(s) && Agree(s, t, k) && HeaderBrace(s).value < k
    ensures IsHeader(t) && EntryType(t) == EntryType(s)
  {
    HeaderAgree(s, t, k);
    WordRunAgree(s, t, 1, k);
    var n := WordRun(s, 1);
    assert s[1..1 + n] == t[1..1 + n] by {
      assert s[1..1 + n] == s[..k][1..1 + n];
      assert t[1..1 + n] == t[..k][1..1 + n];
    }
  }

  lemma {:induction false} IndexOfFromAgree(s: string, t: string, c: char, from: nat, k: nat)
    requires from <= |s| && from <= |t|
    requires Agree(s, t, k) && IndexOfFrom(s, c, from).Some? && IndexOfFrom(s, c, from).value < k
    ensures IndexOfFrom(t, c, from) == IndexOfFrom(s, c, from)
    decreases |s| - from
  {
    assert s[from] == t[from] by {
      assert s[..k][from] == t[..k][from];
    }
    if s[from] != c {
      IndexOfFromAgree(s, t, c, from + 1, k);
    }
  }

  /** A field declared at the start of a line means the line does not start with '@'. */
  lemma FieldAtStartNotAt(s: string)
    requires FieldAt(s, 0).Some?
    ensures s[0] != '@'
  {
    assert SkipSpaces(s, 0) == 0 || IsSpace(s[0]);
  }

  lemma DeclaredFieldOfHeader(line: string, c: nat)
    requires IsHeader(line) && HeaderComma(line) == Some(c)
    ensures DeclaredField(line) == FieldAt(line, c + 1)
  {
  }

  lemma HeaderCommaAgree(s: string, t: string, c: nat, k: nat)
    requires IsHeader(s) && HeaderComma(s) == Some(c) && Agree(s, t, k) && c < k
    ensures IsHeader(t) && HeaderComma(t) == Some(c)
  {
    HeaderAgree(s, t, k);
    IndexOfFromAgree(s, t, ',', HeaderBrace(s).value + 1, k);
  }

  lemma PlainFieldAgree(s: string, t: string, k: nat)
    requires !IsHeader(s) && DeclaredField(s).Some? && Agree(s, t, k)
    requires DeclaredField(s).value.valueStart <= k
    ensures DeclaredField(t) == DeclaredField(s) && !IsHeader(t)
  {
    FieldAtStartNotAt(s);
    AgreeAt(s, t, k);
    assert t[0] != '@';
    FieldAtAgree(s, t, 0, k);
  }

  /** Rewriting a line after the '=' of its field declaration keeps the declaration. */
  lemma DeclaredFieldAgree(s: string, t: string, k: nat)
    requires DeclaredField(s).Some? && Agree(s, t, k) && DeclaredField(s).value.valueStart <= k
    ensures DeclaredField(t) == DeclaredField(s)
    ensures IsHeader(t) == IsHeader(s)
  {
    if IsHeader(s) {
      HeaderFieldAgree(s, t, k);
    } else {
      PlainFieldAgree(s, t, k);
    }
  }

  lemma HeaderFieldAgree(s: string, t: string, k: nat)
    requires IsHeader(s) && DeclaredField(s).Some? && Agree(s, t, k)
    requires DeclaredField(s).value.valueStart <= k
    ensures DeclaredField(t) == DeclaredField(s) && IsHeader(t)
  {
    var c := HeaderComma(s).value;
    DeclaredFieldOfHeader(s, c);
    HeaderCommaAgree(s, t, c, k);
    FieldAtAgree(s, t, c + 1, k);
    SameCommaSameField(s, t, c);
  }

  lemma SameCommaSameField(s: string, t: string, c: nat)
    requires IsHeader(s) && IsHeader(t) && HeaderComma(s) == Some(c) && HeaderComma(t) == Some(c)
    requires FieldAt(t, c + 1) == FieldAt(s, c + 1)
    ensures DeclaredField(t) == DeclaredField(s)
  {
    DeclaredFieldOfHeader(s, c);
    DeclaredFieldOfHeader(t, c);
  }

  // ---------------------------------------------------------------------------------------
  // What a header line yields

  /** An entry type as written: a non-empty run of word characters. */
  predicate TypeName(t: string) {
    t != [] && forall i :: 0 <= i < |t| ==> IsWordChar(t[i])
  }

  /** A citation key as written between '{' and ',': non-empty, without a comma and without
      whitespace at either end. */
  predicate PlainKey(k: string) {
    k != [] && ',' !in k && !IsSpace(k[0]) && !IsSpace(k[|k| - 1])
  }

  /** The header line `@t{k,rest`. */
  function HeaderText(t: string, k: string, rest: string): string {
    "@" + t + "{" + k + "," + rest
  }

  /** `@t{...` is a header, its brace follows the type, and its entry type is t lower-cased. */
  lemma HeaderType(t: string, k: string, rest: string)
    requires TypeName(t)
    ensures IsHeader(HeaderText(t, k, rest)) && HeaderBrace(HeaderText(t, k, rest)) == Some(|t| + 1)
    ensures EntryType(HeaderText(t, k, rest)) == Lower(t)
  {
    var line := HeaderText(t, k, rest);
    forall i | 1 <= i < 1 + |t| ensures IsWordChar(line[i]) {
      assert line[i] == t[i - 1];
    }
    assert line[1 + |t|] == '{';
    WordRunExact(line, 1, |t|);
    assert line[1..1 + |t|] == t;
  }

  /** The citation key of `@t{k,rest` is k, letter case and all, whatever follows the comma. */
  lemma HeaderKey(t: string, k: string, rest: string)
    requires TypeName(t) && PlainKey(k)
    ensures IsHeader(HeaderText(t, k, rest)) && CitationKey(HeaderText(t, k, rest)) == Some(k)
  {
    var line := HeaderText(t, k, rest);
    var b, c := |t| + 1, |t| + 2 + |k|;
    CommaAfterKey(t, k, rest);
    assert line[b + 1..c] == k by {
      assert line == "@" + t + "{" + k + ("," + rest);
    }
    TrimOfTrimmed(k);
  }

  /** The header comma of `@t{k,rest` is the one right after k. */
  lemma CommaAfterKey(t: string, k: string, rest: string)
    requires TypeName(t) && PlainKey(k)
    ensures IsHeader(HeaderText(t, k, rest)) && HeaderBrace(HeaderText(t, k, rest)) == Some(|t| + 1)
    ensures HeaderComma(HeaderText(t, k, rest)) == Some(|t| + 2 + |k|)
  {
    var line := HeaderText(t, k, rest);
    HeaderType(t, k, rest);
    var b, c := |t| + 1, |t| + 2 + |k|;
    assert line == "@" + t + "{" + k + ("," + rest);
    assert line[b + 1..c] == k;
    KeyThenComma(line, k, b + 1, c);
  }

  /** The first ',' from `from` on closes a comma-free run. */
  lemma KeyThenComma(line: string, k: string, from: nat, c: nat)
    requires from <= c < |line| && line[from..c] == k && ',' !in k && line[c] == ','
    ensures IndexOfFrom(line, ',', from) == Some(c)
  {
    forall j | from <= j < c ensures line[j] != ',' {
      assert line[j] == k[j - from];
    }
  }

  /** The key a header line contributes: its citation key, unless its type is `comment` in any
      letter case, in which case none. */
  lemma HeaderLine(t: string, k: string, rest: string)
    requires TypeName(t) && PlainKey(k)
    ensures IsHeader(HeaderText(t, k, rest)) && EntryType(HeaderText(t, k, rest)) == Lower(t)
    ensures Lower(t) != "comment" ==> KeyOf(HeaderText(t, k, rest)) == Some(k)
    ensures Lower(t) == "comment" ==> KeyOf(HeaderText(t, k, rest)) == None
  {
    HeaderType(t, k, rest);
    HeaderKey(t, k, rest);
  }

  // ---------------------------------------------------------------------------------------
  // What a field declaration yields

  /** Whitespace running exactly to `from + n`. */
  lemma {:induction false} SkipSpacesExact(s: string, from: nat, n: nat)
    requires from + n <= |s|
    requires forall i :: from <= i < from + n ==> IsSpace(s[i])
    requires from + n < |s| ==> !IsSpace(s[from + n])
    ensures SkipSpaces(s, from) == from + n
    decreases n
  {
    if n > 0 {
      SkipSpacesExact(s, from + 1, n - 1);
    }
  }

  /** sp whitespace characters, a word of n characters and ` =` from `from` on declare the
      word, lower-cased, with its value starting after the '='. */
  lemma FieldAtWord(line: string, from: nat, sp: nat, n: nat)
    requires from + sp + n + 2 <= |line|
    requires forall i :: from <= i < from + sp ==> IsSpace(line[i])
    requires n > 0 && forall i :: from + sp <= i < from + sp + n ==> IsWordChar(line[i])
    requires line[from + sp + n] == ' ' && line[from + sp + n + 1] == '='
    ensures FieldAt(line, from) == Some(FieldDecl(Lower(line[from + sp..from + sp + n]), from + sp + n + 2))
  {
    SkipSpacesExact(line, from, sp);
    WordRunExact(line, from + sp, n);
    SkipSpacesExact(line, from + sp + n, 1);
  }

  /** The field line `indent name = rest`. */
  function FieldText(indent: string, name: string, rest: string): string {
    indent + name + " = " + rest
  }

  /** A line of any indentation, none included, then `name = ...` declares `name` in lower case,
      its value starting right after the '='. */
  lemma DeclaredFieldText(indent: string, name: string, rest: string)
    requires forall i :: 0 <= i < |indent| ==> IsSpace(indent[i])
    requires TypeName(name)
    ensures !IsHeader(FieldText(indent, name, rest))
    ensures DeclaredField(FieldText(indent, name, rest)) == Some(FieldDecl(Lower(name), |indent| + |name| + 2))
  {
    var line := FieldText(indent, name, rest);
    var sp, n := |indent|, |name|;
    assert line[sp] == name[0];
    assert line[0] != '@' by {
      if sp > 0 {
        assert line[0] == indent[0];
      }
    }
    forall i | 0 <= i < sp ensures IsSpace(line[i]) {
      assert line[i] == indent[i];
    }
    forall i | sp <= i < sp + n ensures IsWordChar(line[i]) {
      assert line[i] == name[i - sp];
    }
    assert line[sp + n] == ' ' && line[sp + n + 1] == '=';
    FieldAtWord(line, 0, sp, n);
    assert line[sp..sp + n] == name;
  }

  /** A header line `@t{k, name = ...` declares `name`, lower-cased, after its key. */
  lemma HeaderFieldText(t: string, k: string, name: string, rest: string)
    requires TypeName(t) && PlainKey(k) && TypeName(name)
    ensures IsHeader(HeaderText(t, k, " " + name + " = " + rest))
    ensures DeclaredField(HeaderText(t, k, " " + name + " = " + rest))
            == Some(FieldDecl(Lower(name), |t| + |k| + |name| + 6))
  {
    var tail := " " + name + " = " + rest;
    CommaAfterKey(t, k, tail);
    var c := |t| + 2 + |k|;
    var from := c + 1;
    DeclaredFieldOfHeader(HeaderText(t, k, tail), c);
    assert DeclaredField(HeaderText(t, k, tail)) == FieldAt(HeaderText(t, k, tail), from);
    NameAfterKey(t, k, name, rest, from);
  }

  /** ` name = rest` right after the key's comma declares `name`, lower-cased. */
  lemma NameAfterKey(t: string, k: string, name: string, rest: string, from: nat)
    requires TypeName(name) && from == |t| + |k| + 3
    ensures from <= |HeaderText(t, k, " " + name + " = " + rest)|
    ensures FieldAt(HeaderText(t, k, " " + name + " = " + rest), from)
            == Some(FieldDecl(Lower(name), |t| + |k| + |name| + 6))
  {
    var tail := " " + name + " = " + rest;
    BlankWordEquals(tail, name, rest);
    FieldAfterKey(t, k, tail, |name|);
  }

  /** The shape of ` name = rest`. */
  lemma BlankWordEquals(tail: string, name: string, rest: string)
    requires TypeName(name) && tail == " " + name + " = " + rest
    ensures |name| + 3 <= |tail| && tail[0] == ' ' && tail[1 + |name|] == ' ' && tail[2 + |name|] == '='
    ensures forall i :: 1 <= i < 1 + |name| ==> IsWordChar(tail[i])
    ensures tail[1..1 + |name|] == name
  {
    var n := |name|;
    forall i | 1 <= i < 1 + n ensures IsWordChar(tail[i]) {
      assert tail[i] == name[i - 1];
    }
    assert tail[1..1 + n] == name;
  }

  /** A blank, a word of n characters and ` =` right after the key's comma. */
  lemma FieldAfterKey(t: string, k: string, tail: string, n: nat)
    requires n + 3 <= |tail| && tail[0] == ' ' && tail[1 + n] == ' ' && tail[2 + n] == '='
    requires n > 0 && forall i :: 1 <= i < 1 + n ==> IsWordChar(tail[i])
    ensures FieldAt(HeaderText(t, k, tail), |t| + |k| + 3)
            == Some(FieldDecl(Lower(tail[1..1 + n]), |t| + |k| + n + 6))
  {
    var line := HeaderText(t, k, tail);
    var from := |t| + |k| + 3;
    forall i | from <= i < from + 1 ensures IsSpace(line[i]) {
      assert line[i] == tail[i - from];
    }
    forall i | from + 1 <= i < from + 1 + n ensures IsWordChar(line[i]) {
      assert line[i] == tail[i - from];
    }
    assert line[from + 1 + n] == tail[1 + n] && line[from + 2 + n] == tail[2 + n];
    FieldAtWord(line, from, 1, n);
    assert line[from + 1..from + 1 + n] == tail[1..1 + n];
  }

  /** A header line ending right after its key's comma declares no field. */
  lemma HeaderWithoutField(t: string, k: string)
    requires TypeName(t) && PlainKey(k)
    ensures DeclaredField(HeaderText(t, k, "")) == None
  {
    CommaAfterKey(t, k, "");
  }

  /** One character between two texts adds one to its own count. */
  lemma CountAround(pre: string, x: char, post: string, c: char)
    ensures Count(pre + [x] + post, c) == Count(pre, c) + (if x == c then 1 else 0) + Count(post, c)
  {
    CountAppend(pre, [x] + post, c);
    assert pre + [x] + post == pre + ([x] + post);
    assert ([x] + post)[1..] == post;
  }

  /** A braced part without braces inside, between brace-free texts, balances. */
  lemma Balanced(pre: string, mid: string, post: string)
    requires '{' !in pre && '}' !in pre && '{' !in mid && '}' !in mid && '{' !in post && '}' !in post
    ensures BraceDelta(pre + "{" + mid + "}" + post) == 0
  {
    var inner := mid + "}" + post;
    assert pre + "{" + mid + "}" + post == pre + ['{'] + inner;
    CountAround(pre, '{', inner, '{');
    CountAround(pre, '{', inner, '}');
    assert inner == mid + ['}'] + post;
    CountAround(mid, '}', post, '{');
    CountAround(mid, '}', post, '}');
  }

  /** A header line `@t{k,` with a brace-free key opens one brace. */
  lemma HeaderBalance(t: string, k: string)
    requires TypeName(t) && '{' !in k && '}' !in k
    ensures BraceDelta(HeaderText(t, k, "")) == 1
  {
    var pre, post := "@" + t, k + ",";
    assert HeaderText(t, k, "") == pre + ['{'] + post;
    assert '{' !in pre && '}' !in pre by {
      assert forall i :: 0 <= i < |pre| ==> pre[i] == '@' || IsWordChar(pre[i]);
    }
    CountAround(pre, '{', post, '{');
    CountAround(pre, '{', post, '}');
  }
}
