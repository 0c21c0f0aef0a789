/**
 * Regrouping the flat extraction table into text chunks (scripts/make_chunks.py).
 *
 * Rows are grouped by (source file, page); a group's lines, ordered by row
 * index, form the page text, which is cut into slices of at most MAX_LEN
 * characters. Each slice gets the id `doc_id:page:index`, where `doc_id` is
 * the first 16 hex digits of the SHA-256 digest of the file name. The digest
 * function is a parameter of the model.
 */
module Chunker {
  import opened Text
  import opened Format
  import opened Extractor

  /** The default `max_len` of `_chunk`, the one `make_chunks` uses. */
  const MAX_LEN: nat := 1000

  /** A SHA-256 digest: 32 bytes. */
  type Digest = d: seq<Byte> | |d| == 32 witness seq(32, _ => 0)

  /** SHA-256 of a string's UTF-8 encoding. */
  type Hasher = string -> Digest

  /** `_doc_id`: the first 16 characters of the hex digest of the file name.
      The same name always gives the same id; it is 16 lower-case hex digits,
      namely those of the digest's first 8 bytes. */
  function DocId(sourceFile: string, sha256: Hasher): (r: string)
    ensures |r| == 16
    ensures forall i :: 0 <= i < |r| ==> IsLowerHex(r[i])
    ensures r == HexOf(sha256(sourceFile)[..8])
  {
    HexOfPrefix(sha256(sourceFile), 8);
    HexOf(sha256(sourceFile))[..16]
  }

  /** The slices `_chunk` yields, in order: `text[i:i+maxLen]` for
      i = 0, maxLen, 2 * maxLen, ... while i < len(text). */
  function Split(text: string, maxLen: nat): seq<string>
    requires maxLen > 0
    decreases |text|
  {
    if text == [] then []
    else
      var end := if |text| < maxLen then |text| else maxLen;
      [text[..end]] + Split(text[end..], maxLen)
  }

  /** The number of slices is the ceiling of |text| / maxLen (0 for empty text). */
  lemma {:induction false} SplitCount(text: string, maxLen: nat)
    requires maxLen > 0
    ensures |Split(text, maxLen)| == (|text| + maxLen - 1) / maxLen
    ensures text == [] <==> Split(text, maxLen) == []
    decreases |text|
  {
    if |text| > maxLen {
      SplitCount(text[maxLen..], maxLen);
      CeilStep(|text|, maxLen);
    } else {
      SplitShort(text, maxLen);
      CeilSmall(|text|, maxLen);
    }
  }

  /** Removing maxLen characters removes one from the ceiling. */
  lemma CeilStep(len: nat, m: nat)
    requires 0 < m < len
    ensures (len + m - 1) / m == (len - m + m - 1) / m + 1
  {
    var q, r := (len - 1) / m, (len - 1) % m;
    DivUnique(len + m - 1, m, q + 1, r);
    DivUnique(len - m + m - 1, m, q, r);
  }

  lemma CeilSmall(len: nat, m: nat)
    requires 0 < m && len <= m
    ensures (len + m - 1) / m == if len == 0 then 0 else 1
  {
    if len == 0 {
      DivUnique(m - 1, m, 0, m - 1);
    } else {
      DivUnique(len + m - 1, m, 1, len - 1);
    }
  }

  /** Euclidean division is determined by quotient and remainder. */
  lemma DivUnique(x: int, m: int, q: int, r: int)
    requires m > 0 && 0 <= r < m && x == q * m + r
    ensures x / m == q
  {
    var q', r' := x / m, x % m;
    assert x == q' * m + r';
    if q' < q {
      assert (q - q') * m >= m by { MulAtLeast(q - q', m); }
    } else if q' > q {
      assert (q' - q) * m >= m by { MulAtLeast(q' - q, m); }
    }
  }

  lemma MulAtLeast(a: int, m: int)
    requires a >= 1 && m > 0
    ensures a * m >= m
  {
  }

  /** Laying the slices end to end gives back the text: the split is lossless. */
  lemma {:induction false} SplitJoin(text: string, maxLen: nat)
    requires maxLen > 0
    ensures Concat(Split(text, maxLen)) == text
    decreases |text|
  {
    if text != [] {
      var end := if |text| < maxLen then |text| else maxLen;
      var pieces := Split(text, maxLen);
      SplitJoin(text[end..], maxLen);
      assert pieces[1..] == Split(text[end..], maxLen);
      assert text == text[..end] + text[end..];
    }
  }

  /** Every slice is non-empty and at most maxLen long; all but the last are exactly maxLen. */
  lemma {:induction false} SplitSizes(text: string, maxLen: nat)
    requires maxLen > 0
    ensures forall k :: 0 <= k < |Split(text, maxLen)| ==>
      0 < |Split(text, maxLen)[k]| <= maxLen
      && (k + 1 < |Split(text, maxLen)| ==> |Split(text, maxLen)[k]| == maxLen)
    decreases |text|
  {
    if text != [] {
      var end := if |text| < maxLen then |text| else maxLen;
      var pieces := Split(text, maxLen);
      SplitSizes(text[end..], maxLen);
      assert pieces[1..] == Split(text[end..], maxLen);
      if end < maxLen { assert text[end..] == []; }
      forall k | 1 <= k < |pieces|
        ensures 0 < |pieces[k]| <= maxLen && (k + 1 < |pieces| ==> |pieces[k]| == maxLen)
      {
        assert pieces[k] == pieces[1..][k - 1];
      }
    }
  }

  /** Slice k is the text from position start = k * maxLen, cut at maxLen
      characters or at the end of the text: boundaries are purely positional. */
  lemma {:induction false} SplitAt(text: string, maxLen: nat, k: nat, start: nat)
    requires maxLen > 0 && k < |Split(text, maxLen)| && start == k * maxLen
    ensures start < |text|
    ensures Split(text, maxLen)[k] == text[start .. if start + maxLen < |text| then start + maxLen else |text|]
    decreases |text|
  {
    var pieces := Split(text, maxLen);
    if k > 0 {
      SplitShort(text, maxLen);
      var rest := text[maxLen..];
      assert pieces[1..] == Split(rest, maxLen);
      assert pieces[k] == Split(rest, maxLen)[k - 1];
      MulStep(k, maxLen);
      SplitAt(rest, maxLen, k - 1, start - maxLen);
      var stop := if start + maxLen < |text| then start + maxLen else |text|;
      assert rest[start - maxLen..stop - maxLen] == text[start..stop];
    }
  }

  /** A text of at most maxLen characters is a single slice (or none). */
  lemma SplitShort(text: string, maxLen: nat)
    requires maxLen > 0
    ensures |text| <= maxLen ==> |Split(text, maxLen)| <= 1
  {
    if text != [] && |text| <= maxLen {
      assert text[|text|..] == [];
    }
  }

  lemma MulStep(k: nat, m: nat)
    requires k > 0
    ensures (k - 1) * m == k * m - m
  {
  }

  /** One step of the split at position i: the slice starting there, then the rest. */
  lemma SplitStep(text: string, maxLen: nat, i: nat)
    requires maxLen > 0 && i < |text|
    ensures var end := if i + maxLen < |text| then i + maxLen else |text|;
      Split(text[i..], maxLen) == [text[i..end]] + Split(text[end..], maxLen)
  {
    var end := if i + maxLen < |text| then i + maxLen else |text|;
    var rest := text[i..];
    assert rest[..end - i] == text[i..end];
    assert rest[end - i..] == text[end..];
  }

  lemma DropCons<T>(s: seq<T>, n: nat, x: T, rest: seq<T>)
    requires n < |s| && s[n..] == [x] + rest
    ensures s[n] == x && s[n + 1..] == rest
  {
    assert s[n] == s[n..][0];
    assert s[n + 1..] == s[n..][1..];
  }

  /** `_chunk`: the slices of `text` paired with their index 0, 1, 2, ... */
  method ChunkText(text: string, maxLen: nat) returns (pieces: seq<(nat, string)>)
    requires maxLen > 0
    ensures |pieces| == |Split(text, maxLen)|
    ensures forall k :: 0 <= k < |pieces| ==> pieces[k] == (k, Split(text, maxLen)[k])
  {
    ghost var all := Split(text, maxLen);
    var i: nat := 0;
    var n: nat := 0;
    pieces := [];
    while i < |text|
      invariant |pieces| == n <= |all|
      invariant forall k :: 0 <= k < n ==> pieces[k] == (k, all[k])
      invariant i < |text| ==> all[n..] == Split(text[i..], maxLen)
      invariant i >= |text| ==> n == |all|
      decreases |text| - i
    {
      var end := if i + maxLen < |text| then i + maxLen else |text|;
      SplitStep(text, maxLen, i);
      var tail := Split(text[end..], maxLen);
      assert |all[n..]| == 1 + |tail|;
      DropCons(all, n, text[i..end], tail);
      pieces := pieces + [(n, text[i..end])];
      i := i + maxLen;
      n := n + 1;
      if i >= |text| {
        assert text[end..] == [];
      }
    }
  }

  /** `f"{doc}:{page}:{idx}"`. */
  function ChunkId(doc: string, page: int, index: nat): string
  {
    doc + ":" + (IntToString(page) + ":" + NatToString(index))
  }

  /** Splitting at the first colon: a colon-free head is recovered exactly. */
  lemma ColonSplit(a: string, b: string, c: string, d: string)
    requires ':' !in a && ':' !in c
    requires a + ":" + b == c + ":" + d
    ensures a == c && b == d
  {
    var s := a + ":" + b;
    assert s[|a|] == ':' && s[|c|] == ':';
    assert a == s[..|a|] == c;
    assert b == s[|a| + 1..] == d;
  }

  /** A chunk id determines its doc id, page and index. */
  lemma ChunkIdInjective(d1: string, p1: int, i1: nat, d2: string, p2: int, i2: nat)
    requires ':' !in d1 && ':' !in d2
    requires ChunkId(d1, p1, i1) == ChunkId(d2, p2, i2)
    ensures d1 == d2 && p1 == p2 && i1 == i2
  {
    var s1, s2 := IntToString(p1), IntToString(p2);
    ColonSplit(d1, s1 + ":" + NatToString(i1), d2, s2 + ":" + NatToString(i2));
    ColonSplit(s1, NatToString(i1), s2, NatToString(i2));
    IntToStringInjective(p1, p2);
    NatToStringInjective(i1, i2);
  }

  /** The `line` column: a row's columns joined with single spaces, then stripped. */
  function Line(rec: Record): (r: string)
    ensures IsStripped(r)
  {
    Strip(Join(" ", rec.cols))
  }

  /** A line is empty exactly when every column is blank; for sanitised
      columns, exactly when every column is the empty string. */
  lemma LineEmptyIff(rec: Record)
    ensures Line(rec) == "" <==> forall i :: 0 <= i < |rec.cols| ==> AllSpace(rec.cols[i])
    ensures (forall i :: 0 <= i < |rec.cols| ==> IsStripped(rec.cols[i])) ==>
              (Line(rec) == "" <==> forall i :: 0 <= i < |rec.cols| ==> rec.cols[i] == "")
  {
    StripEmptyIff(Join(" ", rec.cols));
    JoinAllSpace(" ", rec.cols);
    if forall i :: 0 <= i < |rec.cols| ==> IsStripped(rec.cols[i]) {
      forall i | 0 <= i < |rec.cols| ensures AllSpace(rec.cols[i]) <==> rec.cols[i] == "" {
        StrippedBlankIsEmpty(rec.cols[i]);
      }
    }
  }

  /** The grouping key `(source_file, page)`. */
  type Key = (string, int)

  function KeyOf(rec: Record): Key
  {
    (rec.sourceFile, rec.page)
  }

  /** The rows of one group, in table order. */
  function GroupRows(rows: seq<Record>, key: Key): (g: seq<Record>)
    ensures forall r :: r in g <==> r in rows && KeyOf(r) == key
    decreases |rows|
  {
    if rows == [] then []
    else (if KeyOf(rows[0]) == key then [rows[0]] else []) + GroupRows(rows[1..], key)
  }

  /** Row indices restart with every table, not with every page: when two
      tables sit on the same page, row `j + 1` of the earlier one precedes row
      `j` of the later one in the flat table, belongs to the same group, and
      yet has the larger row index. */
  lemma TablesInterleave(pdfFile: string, frames: seq<Frame>, k1: nat, k2: nat, j: nat)
    requires k1 < k2 < |frames| && frames[k1].0 == frames[k2].0
    requires j + 1 < |frames[k1].1| && j < |frames[k2].1|
    ensures var recs := FileRecords(pdfFile, frames);
            var a := RowCount(frames[..k1]) + j + 1;
            var b := RowCount(frames[..k2]) + j;
            && a < b < |recs|
            && KeyOf(recs[a]) == KeyOf(recs[b])
            && recs[b].rowIndex < recs[a].rowIndex
  {
    FileRecordsAt(pdfFile, frames, k1, j + 1);
    FileRecordsAt(pdfFile, frames, k2, j);
    RowCountGrows(frames, k1, k2);
  }

  /** Sorting by row index therefore reverses such a pair: in a sorted group a
      row with a smaller row index always comes first. */
  lemma SortedPutsSmallerFirst(rows: seq<Record>, p: nat, q: nat)
    requires SortedByRowIndex(rows) && p < |rows| && q < |rows|
    requires rows[p].rowIndex < rows[q].rowIndex
    ensures p < q
  {
  }

  /** Grouping keeps every row of the group as often as the table holds it,
      and no other row. */
  lemma {:induction false} GroupRowsCount(rows: seq<Record>, key: Key, r: Record)
    ensures multiset(GroupRows(rows, key))[r] == if KeyOf(r) == key then multiset(rows)[r] else 0
    decreases |rows|
  {
    if rows != [] {
      GroupRowsCount(rows[1..], key, r);
      assert rows == [rows[0]] + rows[1..];
    }
  }

  /** Grouping keeps table order: the group of a concatenation is the group of
      the first part followed by the group of the second. */
  lemma {:induction false} GroupRowsAppend(a: seq<Record>, b: seq<Record>, key: Key)
    ensures GroupRows(a + b, key) == GroupRows(a, key) + GroupRows(b, key)
    decreases |a|
  {
    if a == [] {
      assert a + b == b;
    } else {
      assert (a + b)[0] == a[0];
      assert (a + b)[1..] == a[1..] + b;
      GroupRowsAppend(a[1..], b, key);
    }
  }

  predicate SortedByRowIndex(rows: seq<Record>)
  {
    forall i, j :: 0 <= i < j < |rows| ==> rows[i].rowIndex <= rows[j].rowIndex
  }

  /** Places `rec` before the first row with a row index at least its own. */
  function Insert(rec: Record, sorted: seq<Record>): (r: seq<Record>)
    ensures multiset(r) == multiset(sorted) + multiset{rec}
    decreases |sorted|
  {
    if sorted == [] || rec.rowIndex <= sorted[0].rowIndex then [rec] + sorted
    else
      assert sorted == [sorted[0]] + sorted[1..];
      [sorted[0]] + Insert(rec, sorted[1..])
  }

  lemma {:induction false} InsertSorted(rec: Record, sorted: seq<Record>)
    requires SortedByRowIndex(sorted)
    ensures SortedByRowIndex(Insert(rec, sorted))
    decreases |sorted|
  {
    if sorted == [] {
    } else if rec.rowIndex <= sorted[0].rowIndex {
      SortedCons(rec, sorted);
    } else {
      var tail := Insert(rec, sorted[1..]);
      SortedUncons(sorted);
      InsertSorted(rec, sorted[1..]);
      forall x | x in tail ensures sorted[0].rowIndex <= x.rowIndex {
        assert x in multiset(tail);
      }
      SortedCons(sorted[0], tail);
    }
  }

  lemma SortedUncons(s: seq<Record>)
    requires SortedByRowIndex(s) && s != []
    ensures SortedByRowIndex(s[1..])
    ensures forall x :: x in s[1..] ==> s[0].rowIndex <= x.rowIndex
  {
    forall i, j | 0 <= i < j < |s[1..]| ensures s[1..][i].rowIndex <= s[1..][j].rowIndex {
      assert s[1..][i] == s[i + 1] && s[1..][j] == s[j + 1];
    }
  }

  lemma SortedCons(h: Record, t: seq<Record>)
    requires SortedByRowIndex(t)
    requires forall x :: x in t ==> h.rowIndex <= x.rowIndex
    ensures SortedByRowIndex([h] + t)
  {
    var r := [h] + t;
    forall i, j | 0 <= i < j < |r| ensures r[i].rowIndex <= r[j].rowIndex {
      assert r[j] == t[j - 1];
      if i > 0 { assert r[i] == t[i - 1]; }
    }
  }

  /** `g.sort_values("row_index")`: the group's rows ordered by row index, as a
      permutation of them. Rows with equal row index come out in the order
      this insertion sort gives them. */
  function SortByRowIndex(rows: seq<Record>): (r: seq<Record>)
    ensures SortedByRowIndex(r)
    ensures multiset(r) == multiset(rows)
    decreases |rows|
  {
    if rows == [] then []
    else
      assert rows == [rows[0]] + rows[1..];
      var tail := SortByRowIndex(rows[1..]);
      InsertSorted(rows[0], tail);
      Insert(rows[0], tail)
  }

  function Lines(rows: seq<Record>): (ls: seq<string>)
    ensures |ls| == |rows|
  {
    seq(|rows|, i requires 0 <= i < |rows| => Line(rows[i]))
  }

  /** The page text: the group's lines in row-index order, joined with newlines, stripped. */
  function PageText(group: seq<Record>): (r: string)
    ensures IsStripped(r)
  {
    Strip(Join("\n", Lines(SortByRowIndex(group))))
  }

  /** The lines of some rows are all blank exactly when every row's line is empty. */
  lemma LinesBlankIff(rows: seq<Record>)
    ensures (forall i :: 0 <= i < |rows| ==> AllSpace(Lines(rows)[i]))
            <==> forall r :: r in rows ==> Line(r) == ""
  {
    forall i | 0 <= i < |rows| ensures AllSpace(Lines(rows)[i]) <==> Line(rows[i]) == "" {
      StrippedBlankIsEmpty(Line(rows[i]));
    }
  }

  /** The page text is empty exactly when every line of the group is empty. */
  lemma PageTextEmptyIff(group: seq<Record>)
    ensures PageText(group) == "" <==> forall r :: r in group ==> Line(r) == ""
  {
    var sorted := SortByRowIndex(group);
    StripEmptyIff(Join("\n", Lines(sorted)));
    JoinAllSpace("\n", Lines(sorted));
    LinesBlankIff(sorted);
    assert forall r :: r in group <==> r in sorted by {
      forall r ensures r in group <==> r in sorted {
        assert r in group <==> r in multiset(group);
      }
    }
  }

  datatype Meta = Meta(sourceFile: string, page: int, chunkIndex: nat)

  datatype Chunk = Chunk(docId: string, chunkId: string, text: string, meta: Meta)

  function MakeChunk(doc: string, key: Key, index: nat, piece: string): Chunk
  {
    Chunk(doc, ChunkId(doc, key.1, index), piece, Meta(key.0, key.1, index))
  }

  /** The chunks one group contributes: none when its page text is empty. */
  function GroupChunks(key: Key, group: seq<Record>, sha256: Hasher): seq<Chunk>
  {
    TextChunks(key, PageText(group), sha256)
  }

  /** The chunks of one page text of the group `key`. */
  function TextChunks(key: Key, content: string, sha256: Hasher): seq<Chunk>
  {
    if content == "" then []
    else
      var doc := DocId(key.0, sha256);
      var pieces := Split(content, MAX_LEN);
      seq(|pieces|, k requires 0 <= k < |pieces| => MakeChunk(doc, key, k, pieces[k]))
  }

  function Texts(chunks: seq<Chunk>): (ts: seq<string>)
    ensures |ts| == |chunks|
  {
    seq(|chunks|, k requires 0 <= k < |chunks| => chunks[k].text)
  }

  /** A group's chunks are its page text's slices, in order, under ids
      `doc:page:index` with matching meta; an empty page text gives none. */
  lemma GroupChunksAre(key: Key, group: seq<Record>, sha256: Hasher)
    ensures var cs := GroupChunks(key, group, sha256);
      && (PageText(group) == "" ==> cs == [])
      && Texts(cs) == Split(PageText(group), MAX_LEN)
      && forall k :: 0 <= k < |cs| ==>
           cs[k] == MakeChunk(DocId(key.0, sha256), key, k, Split(PageText(group), MAX_LEN)[k])
  {
    TextChunksAre(key, PageText(group), sha256);
  }

  lemma TextChunksAre(key: Key, content: string, sha256: Hasher)
    ensures var cs := TextChunks(key, content, sha256);
      && (content == "" ==> cs == [])
      && Texts(cs) == Split(content, MAX_LEN)
      && forall k :: 0 <= k < |cs| ==>
           cs[k] == MakeChunk(DocId(key.0, sha256), key, k, Split(content, MAX_LEN)[k])
  {
    SplitCount(content, MAX_LEN);
    if content != "" {
      TextChunksAt(key, content, sha256);
    }
  }

  /** What a group contributes: ceil(|page text| / MAX_LEN) chunks, indexed
      0, 1, ... with ids `doc:page:index` and matching meta, each text non-empty
      and at most MAX_LEN long, together spelling out the page text. */
  lemma GroupChunksSpec(key: Key, group: seq<Record>, sha256: Hasher)
    ensures var cs := GroupChunks(key, group, sha256);
      && |cs| == (|PageText(group)| + MAX_LEN - 1) / MAX_LEN
      && Concat(Texts(cs)) == PageText(group)
      && (forall k :: 0 <= k < |cs| ==>
            && cs[k].docId == DocId(key.0, sha256)
            && cs[k].chunkId == ChunkId(cs[k].docId, key.1, k)
            && cs[k].meta == Meta(key.0, key.1, k)
            && 0 < |cs[k].text| <= MAX_LEN
            && (k + 1 < |cs| ==> |cs[k].text| == MAX_LEN))
  {
    var content := PageText(group);
    GroupChunksAre(key, group, sha256);
    SplitCount(content, MAX_LEN);
    SplitJoin(content, MAX_LEN);
    SplitSizes(content, MAX_LEN);
  }

  /** Within one group the chunk ids are pairwise distinct. */
  lemma GroupChunkIdsDistinct(key: Key, group: seq<Record>, sha256: Hasher, i: nat, j: nat)
    requires i < j < |GroupChunks(key, group, sha256)|
    ensures GroupChunks(key, group, sha256)[i].chunkId != GroupChunks(key, group, sha256)[j].chunkId
  {
    var cs := GroupChunks(key, group, sha256);
    var doc := DocId(key.0, sha256);
    GroupChunksAre(key, group, sha256);
    if cs[i].chunkId == cs[j].chunkId {
      ChunkIdInjective(doc, key.1, i, doc, key.1, j);
    }
  }

  /** A group is skipped exactly when every cell of every one of its rows is
      blank. */
  lemma GroupSkippedIff(key: Key, group: seq<Record>, sha256: Hasher)
    ensures GroupChunks(key, group, sha256) == [] <==>
            forall r, i :: r in group && 0 <= i < |r.cols| ==> AllSpace(r.cols[i])
  {
    PageTextEmptyIff(group);
    SplitCount(PageText(group), MAX_LEN);
    forall r | r in group { LineEmptyIff(r); }
  }

  /** The chunk table for the groups `keys`, group after group. */
  function AllChunks(rows: seq<Record>, keys: seq<Key>, sha256: Hasher): seq<Chunk>
    decreases |keys|
  {
    if keys == [] then []
    else
      var key := keys[|keys| - 1];
      AllChunks(rows, keys[..|keys| - 1], sha256) + GroupChunks(key, GroupRows(rows, key), sha256)
  }

  /** Every output chunk is the chunk of its own group at its own index. */
  lemma {:induction false} AllChunksFrom(rows: seq<Record>, keys: seq<Key>, sha256: Hasher, c: Chunk)
    requires c in AllChunks(rows, keys, sha256)
    ensures (c.meta.sourceFile, c.meta.page) in keys
    ensures var key := (c.meta.sourceFile, c.meta.page);
            var cs := GroupChunks(key, GroupRows(rows, key), sha256);
            c.meta.chunkIndex < |cs| && c == cs[c.meta.chunkIndex]
    decreases |keys|
  {
    var n := |keys| - 1;
    var key := keys[n];
    var cs := GroupChunks(key, GroupRows(rows, key), sha256);
    if c in AllChunks(rows, keys[..n], sha256) {
      AllChunksFrom(rows, keys[..n], sha256, c);
    } else {
      var k :| 0 <= k < |cs| && cs[k] == c;
      GroupChunksAre(key, GroupRows(rows, key), sha256);
    }
  }

  /** The output for the first m groups is a prefix of the whole output. */
  lemma {:induction false} AllChunksPrefix(rows: seq<Record>, keys: seq<Key>, sha256: Hasher, m: nat)
    requires m <= |keys|
    ensures AllChunks(rows, keys[..m], sha256) <= AllChunks(rows, keys, sha256)
    decreases |keys|
  {
    if m == |keys| {
      assert keys[..m] == keys;
    } else {
      var n := |keys| - 1;
      var init := keys[..n];
      assert init[..m] == keys[..m];
      AllChunksPrefix(rows, init, sha256, m);
      var last := GroupChunks(keys[n], GroupRows(rows, keys[n]), sha256);
      assert AllChunks(rows, keys, sha256) == AllChunks(rows, init, sha256) + last;
      PrefixAppend(AllChunks(rows, keys[..m], sha256), AllChunks(rows, init, sha256), last);
    }
  }

  lemma PrefixAppend<T>(p: seq<T>, a: seq<T>, b: seq<T>)
    requires p <= a
    ensures p <= a + b
  {
    assert (a + b)[..|p|] == a[..|p|];
  }

  lemma InPrefix<T>(a: seq<T>, b: seq<T>, s: seq<T>, x: T)
    requires x in b && a + b <= s
    ensures x in s
  {
    var i :| 0 <= i < |b| && b[i] == x;
    assert s[|a| + i] == (a + b)[|a| + i];
  }

  /** A group listed in `keys` has all its chunks in the output. */
  lemma AllChunksContains(rows: seq<Record>, keys: seq<Key>, sha256: Hasher, g: nat, c: Chunk)
    requires g < |keys| && c in GroupChunks(keys[g], GroupRows(rows, keys[g]), sha256)
    ensures c in AllChunks(rows, keys, sha256)
  {
    AllChunksStep(rows, keys, sha256, g);
    AllChunksPrefix(rows, keys, sha256, g + 1);
    InPrefix(AllChunks(rows, keys[..g], sha256), GroupChunks(keys[g], GroupRows(rows, keys[g]), sha256),
             AllChunks(rows, keys, sha256), c);
  }

  /** No page with text is lost: when every row's group is listed, each row
      with a non-empty line has its (file, page) represented in the output,
      starting with chunk 0. */
  lemma NonBlankRowsReachOutput(rows: seq<Record>, keys: seq<Key>, sha256: Hasher, r: Record)
    requires forall x :: x in rows ==> KeyOf(x) in keys
    requires r in rows && Line(r) != ""
    ensures exists c :: c in AllChunks(rows, keys, sha256) && c.meta == Meta(r.sourceFile, r.page, 0)
  {
    var key := KeyOf(r);
    var g :| 0 <= g < |keys| && keys[g] == key;
    var group := GroupRows(rows, key);
    PageTextEmptyIff(group);
    var content := PageText(group);
    TextChunksAre(key, content, sha256);
    SplitCount(content, MAX_LEN);
    var cs := GroupChunks(key, group, sha256);
    assert cs[0].meta == Meta(r.sourceFile, r.page, 0);
    AllChunksContains(rows, keys, sha256, g, cs[0]);
  }

  /** Every output chunk has the doc id of its file and the id
      `doc:page:index` built from its own meta. */
  lemma ChunkShape(rows: seq<Record>, keys: seq<Key>, sha256: Hasher, c: Chunk)
    requires c in AllChunks(rows, keys, sha256)
    ensures c.docId == DocId(c.meta.sourceFile, sha256) && ':' !in c.docId
    ensures c.chunkId == ChunkId(c.docId, c.meta.page, c.meta.chunkIndex)
  {
    AllChunksFrom(rows, keys, sha256, c);
    var key := (c.meta.sourceFile, c.meta.page);
    GroupChunksAre(key, GroupRows(rows, key), sha256);
  }

  /** Chunk ids identify chunks: two output chunks with the same id have the
      same doc id, page and index, and are the same chunk when they come from
      the same file. */
  lemma ChunkIdsIdentify(rows: seq<Record>, keys: seq<Key>, sha256: Hasher, c1: Chunk, c2: Chunk)
    requires c1 in AllChunks(rows, keys, sha256) && c2 in AllChunks(rows, keys, sha256)
    requires c1.chunkId == c2.chunkId
    ensures c1.docId == c2.docId && c1.meta.page == c2.meta.page && c1.meta.chunkIndex == c2.meta.chunkIndex
    ensures c1.meta.sourceFile == c2.meta.sourceFile ==> c1 == c2
  {
    ChunkShape(rows, keys, sha256, c1);
    ChunkShape(rows, keys, sha256, c2);
    ChunkIdInjective(c1.docId, c1.meta.page, c1.meta.chunkIndex, c2.docId, c2.meta.page, c2.meta.chunkIndex);
    if c1.meta.sourceFile == c2.meta.sourceFile {
      AllChunksFrom(rows, keys, sha256, c1);
      AllChunksFrom(rows, keys, sha256, c2);
    }
  }

  lemma TakeSnoc<T>(s: seq<T>, t: nat)
    requires t < |s|
    ensures s[..t + 1] == s[..t] + [s[t]]
  {
  }

  lemma AllChunksStep(rows: seq<Record>, keys: seq<Key>, sha256: Hasher, g: nat)
    requires g < |keys|
    ensures AllChunks(rows, keys[..g + 1], sha256)
            == AllChunks(rows, keys[..g], sha256) + GroupChunks(keys[g], GroupRows(rows, keys[g]), sha256)
  {
    var ks := keys[..g + 1];
    assert ks[..|ks| - 1] == keys[..g];
    assert ks[|ks| - 1] == keys[g];
  }

  lemma TextChunksAt(key: Key, content: string, sha256: Hasher)
    requires content != ""
    ensures |TextChunks(key, content, sha256)| == |Split(content, MAX_LEN)|
    ensures forall k :: 0 <= k < |Split(content, MAX_LEN)| ==>
              TextChunks(key, content, sha256)[k]
              == MakeChunk(DocId(key.0, sha256), key, k, Split(content, MAX_LEN)[k])
  {
  }

  /** No group is listed twice. */
  predicate DistinctKeys(keys: seq<Key>)
  {
    forall i, j :: 0 <= i < j < |keys| ==> keys[i] != keys[j]
  }

  /** The order `groupby` visits the groups in: every (file, page) that occurs
      in the table exactly once, and nothing else. */
  predicate GroupOrder(rows: seq<Record>, keys: seq<Key>)
  {
    && DistinctKeys(keys)
    && (forall r :: r in rows ==> KeyOf(r) in keys)
    && (forall k :: k in keys ==> exists r :: r in rows && KeyOf(r) == k)
  }

  /** With every group listed once, no two positions of the output carry the
      same (file, page, chunk index). */
  lemma {:induction false} MetasDistinct(rows: seq<Record>, keys: seq<Key>, sha256: Hasher, i: nat, j: nat)
    requires DistinctKeys(keys)
    requires i < j < |AllChunks(rows, keys, sha256)|
    ensures AllChunks(rows, keys, sha256)[i].meta != AllChunks(rows, keys, sha256)[j].meta
    decreases |keys|
  {
    var n := |keys| - 1;
    var key := keys[n];
    var front := AllChunks(rows, keys[..n], sha256);
    var last := GroupChunks(key, GroupRows(rows, key), sha256);
    assert AllChunks(rows, keys, sha256) == front + last;
    if j < |front| {
      DistinctInit(keys);
      MetasDistinct(rows, keys[..n], sha256, i, j);
    } else {
      GroupChunkMeta(key, GroupRows(rows, key), sha256, j - |front|);
      if |front| <= i {
        GroupChunkMeta(key, GroupRows(rows, key), sha256, i - |front|);
      } else {
        AllChunksFrom(rows, keys[..n], sha256, front[i]);
        DistinctInit(keys);
      }
    }
    ConcatMetas(front, last, key, i, j);
  }

  /** The case split of `MetasDistinct` on the two halves of the output. */
  lemma ConcatMetas(front: seq<Chunk>, last: seq<Chunk>, key: Key, i: nat, j: nat)
    requires i < j < |front| + |last|
    requires j < |front| ==> front[i].meta != front[j].meta
    requires |front| <= j ==> last[j - |front|].meta == Meta(key.0, key.1, j - |front|)
    requires |front| <= i ==> last[i - |front|].meta == Meta(key.0, key.1, i - |front|)
    requires i < |front| <= j ==> (front[i].meta.sourceFile, front[i].meta.page) != key
    ensures (front + last)[i].meta != (front + last)[j].meta
  {
  }

  /** The last key of a duplicate-free list is not among the others, which
      are duplicate-free themselves. */
  lemma DistinctInit(keys: seq<Key>)
    requires DistinctKeys(keys) && keys != []
    ensures DistinctKeys(keys[..|keys| - 1]) && keys[|keys| - 1] !in keys[..|keys| - 1]
  {
  }

  lemma GroupChunkMeta(key: Key, group: seq<Record>, sha256: Hasher, k: nat)
    requires k < |GroupChunks(key, group, sha256)|
    ensures GroupChunks(key, group, sha256)[k].meta == Meta(key.0, key.1, k)
  {
    GroupChunksAre(key, group, sha256);
  }

  /** The inner loop of `make_chunks` for one non-empty page text: one chunk
      per slice, with the doc id of the file, the id `doc:page:idx` and meta. */
  method EmitGroup(src: string, page: int, content: string, sha256: Hasher) returns (out: seq<Chunk>)
    requires content != ""
    ensures out == TextChunks((src, page), content, sha256)
  {
    var doc := DocId(src, sha256);
    var pieces := ChunkText(content, MAX_LEN);
    TextChunksAt((src, page), content, sha256);
    ghost var expected := TextChunks((src, page), content, sha256);
    out := [];
    for t := 0 to |pieces|
      invariant out == expected[..t]
    {
      var (idx, piece) := pieces[t];
      var meta := Meta(src, page, idx);
      assert expected[t] == Chunk(doc, ChunkId(doc, page, idx), piece, meta);
      TakeSnoc(expected, t);
      out := out + [Chunk(doc, ChunkId(doc, page, idx), piece, meta)];
    }
    assert expected[..|pieces|] == expected;
  }

  /** One iteration of the outer loop of `make_chunks`: the group's page text
      is built and, unless it is empty, cut into chunks. */
  method EmitKey(rows: seq<Record>, key: Key, sha256: Hasher) returns (out: seq<Chunk>)
    ensures out == GroupChunks(key, GroupRows(rows, key), sha256)
  {
    var group := GroupRows(rows, key);
    var content := PageText(group);
    if content == "" {
      out := [];
    } else {
      out := EmitGroup(key.0, key.1, content, sha256);
    }
  }

  /** `make_chunks` without the CSV reading and writing: for every group, in
      the order `keys` lists them, the page text is built, an empty one is
      skipped, and its slices are appended as chunks. */
  method MakeChunks(rows: seq<Record>, keys: seq<Key>, sha256: Hasher) returns (chunks: seq<Chunk>)
    requires GroupOrder(rows, keys)
    ensures chunks == AllChunks(rows, keys, sha256)
    ensures forall i, j :: 0 <= i < j < |chunks| ==> chunks[i].meta != chunks[j].meta
  {
    chunks := [];
    var g := 0;
    while g < |keys|
      invariant g <= |keys|
      invariant chunks == AllChunks(rows, keys[..g], sha256)
    {
      AllChunksStep(rows, keys, sha256, g);
      var groupChunks := EmitKey(rows, keys[g], sha256);
      chunks := chunks + groupChunks;
      g := g + 1;
    }
    assert keys[..|keys|] == keys;
    forall i, j | 0 <= i < j < |chunks| ensures chunks[i].meta != chunks[j].meta {
      MetasDistinct(rows, keys, sha256, i, j);
    }
  }
}
