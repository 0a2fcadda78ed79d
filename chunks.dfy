/** How the deduplication reads one input: the text is cut into chunks, each starting at a
    line with '@' in its first column, and each chunk becomes a record — a comment block, an
    entry with its citation key and verbatim text, or stray text that is neither. */
module Chunking {

  import opened Wrappers
  import opened Text
  import opened BibLine
  import opened Importance

  /** A line that starts a new chunk. */
  predicate StartsChunk(line: string) {
    |line| > 0 && line[0] == '@'
  }

  /** The lines cut into chunks, in order. Lines before the first '@' line form a chunk of
      their own. */
  function Chunks(lines: seq<string>): (cs: seq<seq<string>>)
    ensures forall i :: 0 <= i < |cs| ==> cs[i] != []
    ensures |cs| <= |lines| && (lines != [] ==> cs != [])
  {
    if lines == [] then []
    else
      var cs := Chunks(lines[..|lines| - 1]);
      var l := lines[|lines| - 1];
      if cs == [] || StartsChunk(l) then cs + [[l]]
      else cs[..|cs| - 1] + [cs[|cs| - 1] + [l]]
  }

  /** The chunks laid end to end. */
  function Flatten(cs: seq<seq<string>>): seq<string> {
    if cs == [] then [] else Flatten(cs[..|cs| - 1]) + cs[|cs| - 1]
  }

  lemma FlattenSnoc(cs: seq<seq<string>>, c: seq<string>)
    ensures Flatten(cs + [c]) == Flatten(cs) + c
  {
    assert (cs + [c])[..|cs|] == cs;
  }

  /** Chunking loses, adds and reorders no line. */
  lemma {:induction false} ChunksCover(lines: seq<string>)
    ensures Flatten(Chunks(lines)) == lines
  {
    if lines != [] {
      var init := lines[..|lines| - 1];
      var l := lines[|lines| - 1];
      var cs := Chunks(init);
      ChunksCover(init);
      assert lines == init + [l];
      if cs == [] || StartsChunk(l) {
        FlattenSnoc(cs, [l]);
      } else {
        var n := |cs| - 1;
        assert cs == cs[..n] + [cs[n]];
        FlattenSnoc(cs[..n], cs[n]);
        FlattenSnoc(cs[..n], cs[n] + [l]);
      }
    }
  }

  /** Every chunk but the first opens with an '@' line, and no chunk holds an '@' line
      anywhere else. */
  lemma {:induction false} ChunksStart(lines: seq<string>)
    ensures forall i :: 0 < i < |Chunks(lines)| ==> StartsChunk(Chunks(lines)[i][0])
    ensures forall i, j :: 0 <= i < |Chunks(lines)| && 0 < j < |Chunks(lines)[i]| ==> !StartsChunk(Chunks(lines)[i][j])
  {
    if lines != [] {
      var init := lines[..|lines| - 1];
      ChunksStart(init);
      var cs := Chunks(init);
      var l := lines[|lines| - 1];
      var r := Chunks(lines);
      if cs == [] || StartsChunk(l) {
        assert r == cs + [[l]];
        assert forall i :: 0 <= i < |cs| ==> r[i] == cs[i];
      } else {
        var n := |cs| - 1;
        assert r == cs[..n] + [cs[n] + [l]];
        assert forall i :: 0 <= i < n ==> r[i] == cs[i];
        forall j | 0 < j < |r[n]| ensures !StartsChunk(r[n][j]) {
          if j < |cs[n]| {
            assert r[n][j] == cs[n][j];
          }
        }
      }
    }
  }

  /** What a chunk is to the deduplication; an entry carries its importance as parsed. */
  datatype Record = Comment(text: string) | Entry(key: string, text: string, level: Level) | Stray

  /** A chunk whose first line is an `@comment` header is a comment block; one whose first
      line is a keyed header is an entry; anything else is stray text. The text is the chunk's
      lines joined again, and an entry's importance is the one its text is parsed as. */
  function RecordOf(chunk: seq<string>): (r: Record)
    requires chunk != []
    ensures r.Comment? <==> IsCommentHeader(chunk[0])
    ensures r.Entry? <==> KeyOf(chunk[0]).Some?
    ensures r.Entry? ==> r.key == KeyOf(chunk[0]).value && r.level == ParseImportance(r.text)
  {
    if IsCommentHeader(chunk[0]) then Comment(JoinLines(chunk))
    else match KeyOf(chunk[0])
      case Some(k) => var text := JoinLines(chunk); Entry(k, text, ParseImportance(text))
      case None => Stray
  }

  /** The records of the chunks, one per chunk, in order. */
  function Records(cs: seq<seq<string>>): (rs: seq<Record>)
    requires forall i :: 0 <= i < |cs| ==> cs[i] != []
    ensures |rs| == |cs| && forall i :: 0 <= i < |cs| ==> rs[i] == RecordOf(cs[i])
  {
    if cs == [] then [] else Records(cs[..|cs| - 1]) + [RecordOf(cs[|cs| - 1])]
  }

  /** The records of one input text, in order. */
  function FileRecords(content: string): seq<Record> {
    Records(Chunks(SplitLines(content)))
  }

  /** The keys of the entry records, in order. */
  function EntryKeys(rs: seq<Record>): seq<string> {
    if rs == [] then []
    else EntryKeys(rs[..|rs| - 1]) + RecordKey(rs[|rs| - 1])
  }

  /** The key of an entry record, if it is one. */
  function RecordKey(r: Record): seq<string> {
    if r.Entry? then [r.key] else []
  }

  /** The key of a line, if it has one. */
  function LineKey(line: string): seq<string> {
    match KeyOf(line) case Some(k) => [k] case None => []
  }

  /** The keys of the keyed header lines, in order. */
  function HeaderKeys(lines: seq<string>): seq<string> {
    if lines == [] then [] else HeaderKeys(lines[..|lines| - 1]) + LineKey(lines[|lines| - 1])
  }

  /** A chunk's record carries the key of its first line. */
  lemma ChunkRecordKey(c: seq<string>)
    requires c != []
    ensures RecordKey(RecordOf(c)) == LineKey(c[0])
  {
  }

  lemma EntryKeysSnoc(rs: seq<Record>, r: Record)
    ensures EntryKeys(rs + [r]) == EntryKeys(rs) + RecordKey(r)
  {
    assert (rs + [r])[..|rs|] == rs;
  }

  lemma RecordsSnoc(cs: seq<seq<string>>, c: seq<string>)
    requires forall i :: 0 <= i < |cs| ==> cs[i] != []
    requires c != []
    ensures Records(cs + [c]) == Records(cs) + [RecordOf(c)]
  {
    assert (cs + [c])[..|cs|] == cs;
  }

  /** Every entry of a text is read: the entry records of its chunks carry exactly the keys of
      its keyed header lines, in order. A line that does not open a chunk has no key, and the
      chunk a keyed header opens is an entry under that key. */
  lemma {:induction false} ChunkKeys(lines: seq<string>)
    ensures EntryKeys(Records(Chunks(lines))) == HeaderKeys(lines)
  {
    if lines != [] {
      var init, l := lines[..|lines| - 1], lines[|lines| - 1];
      var cs := Chunks(init);
      ChunkKeys(init);
      assert HeaderKeys(lines) == HeaderKeys(init) + LineKey(l);
      if cs == [] || StartsChunk(l) {
        assert Chunks(lines) == cs + [[l]];
        NewChunkKeys(cs, l);
      } else {
        var front, last := cs[..|cs| - 1], cs[|cs| - 1];
        assert cs == front + [last];
        var ext := front + [last + [l]];
        assert Chunks(lines) == ext;
        NonStarterKey(l);
        ExtendedChunkKeys(front, last, l);
        assert EntryKeys(Records(ext)) == EntryKeys(Records(cs));
      }
    }
  }

  /** A line that opens a chunk adds its own key, if it has one. */
  lemma NewChunkKeys(cs: seq<seq<string>>, l: string)
    requires forall i :: 0 <= i < |cs| ==> cs[i] != []
    ensures EntryKeys(Records(cs + [[l]])) == EntryKeys(Records(cs)) + LineKey(l)
  {
    RecordsSnoc(cs, [l]);
    EntryKeysSnoc(Records(cs), RecordOf([l]));
    ChunkRecordKey([l]);
  }

  /** A line that does not start with '@' has no key. */
  lemma NonStarterKey(l: string)
    requires !StartsChunk(l)
    ensures LineKey(l) == []
  {
  }

  /** A line appended to the last chunk adds no key. */
  lemma ExtendedChunkKeys(init: seq<seq<string>>, last: seq<string>, l: string)
    requires forall i :: 0 <= i < |init| ==> init[i] != []
    requires last != []
    ensures EntryKeys(Records(init + [last + [l]])) == EntryKeys(Records(init + [last]))
  {
    var c := last + [l];
    RecordsSnoc(init, last);
    RecordsSnoc(init, c);
    EntryKeysSnoc(Records(init), RecordOf(last));
    EntryKeysSnoc(Records(init), RecordOf(c));
    SameFirstLine(last, c);
  }

  /** Chunks with the same first line carry the same key. */
  lemma SameFirstLine(a: seq<string>, b: seq<string>)
    requires a != [] && b != [] && a[0] == b[0]
    ensures RecordKey(RecordOf(a)) == RecordKey(RecordOf(b))
  {
    ChunkRecordKey(a);
    ChunkRecordKey(b);
  }

  /** The entry records of an input text carry the keys of its keyed header lines, in order. */
  lemma FileEntryKeys(content: string)
    ensures EntryKeys(FileRecords(content)) == HeaderKeys(SplitLines(content))
  {
    ChunkKeys(SplitLines(content));
  }

  /** An empty input holds nothing but stray text. */
  lemma EmptyFileRecords()
    ensures FileRecords("") == [Stray]
  {
    assert SplitLines("") == [""];
    assert Chunks([""]) == [[""]];
  }
}
