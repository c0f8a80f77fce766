/**
 The Ogg page scanner that computes an Opus duration (common/audio.go, getOpusDuration).

 The scanner reads 27 bytes at a time; when they do not start with the capture pattern it seeks back 26
 bytes and tries again, otherwise it skips the page described by its segment table (section 6 of RFC 3533).
 A read is assumed to deliver all the bytes that are left, up to the size of its buffer.
 */
module OggScan {

  import opened Common

  const HEADER := 27
  const O: byte := 0x4F
  const G: byte := 0x67
  const S: byte := 0x53
  const SAMPLE_RATE := 48000.0
  const TWO_63 := 0x8000_0000_0000_0000
  const TWO_64 := 0x1_0000_0000_0000_0000

  /** Little-endian, unsigned. */
  function Unsigned(bytes: seq<byte>): nat {
    if bytes == [] then 0 else bytes[0] as nat + 256 * Unsigned(bytes[1..])
  }

  /** Go's int64(uint64) */
  function Signed(n: nat): int {
    if n >= TWO_63 then n - TWO_64 else n
  }

  /** The first byte counts one, each next one 256 times the one before. */
  lemma UnsignedIs(a: byte, b: byte, c: byte, d: byte, e: byte, f: byte, g: byte, h: byte)
    ensures Unsigned([a, b, c, d, e, f, g, h]) ==
            a as int + b as int * 0x100 + c as int * 0x1_0000 + d as int * 0x100_0000 + e as int * 0x1_0000_0000
            + f as int * 0x100_0000_0000 + g as int * 0x1_0000_0000_0000 + h as int * 0x100_0000_0000_0000
  {
    var s := [a, b, c, d, e, f, g, h];
    assert s[1..] == [b, c, d, e, f, g, h] && s[1..][1..] == [c, d, e, f, g, h];
    assert [c, d, e, f, g, h][1..] == [d, e, f, g, h] && [d, e, f, g, h][1..] == [e, f, g, h];
    assert [e, f, g, h][1..] == [f, g, h] && [f, g, h][1..] == [g, h] && [g, h][1..] == [h] && [h][1..] == [];
    assert Unsigned([h]) == h as int;
    assert Unsigned([g, h]) == g as int + 256 * h as int;
    assert Unsigned([f, g, h]) == f as int + 256 * Unsigned([g, h]);
    assert Unsigned([e, f, g, h]) == e as int + 256 * Unsigned([f, g, h]);
    assert Unsigned([d, e, f, g, h]) == d as int + 256 * Unsigned([e, f, g, h]);
    assert Unsigned([c, d, e, f, g, h]) == c as int + 256 * Unsigned([d, e, f, g, h]);
    assert Unsigned([b, c, d, e, f, g, h]) == b as int + 256 * Unsigned([c, d, e, f, g, h]);
  }

  /** From 2^63 on a 64-bit number stands for itself minus 2^64. */
  lemma SignedIs(n: nat)
    ensures Signed(n) == if n < 0x8000_0000_0000_0000 then n else n - 0x1_0000_0000_0000_0000
  {
  }

  function Sum(table: seq<byte>): nat {
    if table == [] then 0 else Sum(table[..|table| - 1]) + table[|table| - 1] as nat
  }

  /** The capture pattern "OggS" */
  predicate CapturedAt(data: seq<byte>, p: nat) {
    p + 4 <= |data| && data[p] == O && data[p + 1] == G && data[p + 2] == G && data[p + 3] == S
  }

  /** The pattern is the four letters "OggS". */
  lemma CapturedIs(data: seq<byte>, p: nat)
    ensures CapturedAt(data, p) <==> p + 4 <= |data| && data[p..p + 4] == [79, 103, 103, 83]
  {
  }

  lemma SumIs(table: seq<byte>, b: byte)
    ensures Sum([]) == 0 && Sum(table + [b]) == Sum(table) + b as int
  {
    assert (table + [b])[..|table|] == table;
  }

  function GranuleAt(data: seq<byte>, p: nat): int
    requires p + HEADER <= |data|
  {
    Signed(Unsigned(data[p + 6..p + 14]))
  }

  /** A page header the scanner took: where it starts and its granule position. */
  datatype Visit = Visit(start: nat, granule: int)

  /** The headers the scanner takes from position `p` on. */
  function ScanFrom(data: seq<byte>, p: nat): seq<Visit>
    decreases |data| - p
  {
    if p + HEADER > |data| then []
    else if !CapturedAt(data, p) then ScanFrom(data, p + 1)
    else
      var visit := Visit(p, GranuleAt(data, p));
      var body := p + HEADER + data[p + 26] as nat;
      if body > |data| then [visit] else [visit] + ScanFrom(data, body + Sum(data[p + HEADER..body]))
  }

  /** A page whose segment table or body is cut off still counts, and is the last one. */
  lemma TruncatedPage(data: seq<byte>, p: nat)
    requires p + 27 <= |data| && CapturedAt(data, p)
    requires p + 27 + data[p + 26] as nat > |data| ||
             p + 27 + data[p + 26] as nat + Sum(data[p + 27..p + 27 + data[p + 26] as nat]) + 27 > |data|
    ensures ScanFrom(data, p) == [Visit(p, GranuleAt(data, p))]
  {
  }

  /** Fewer than 27 bytes hold no page header. */
  lemma ShortRest(data: seq<byte>, p: nat)
    ensures ScanFrom(data, p) == [] || p + 27 <= |data|
  {
  }

  /** The maximum of 0 and the granule positions. */
  function MaxGranule(visits: seq<Visit>): int {
    if visits == [] then 0
    else
      var m := MaxGranule(visits[..|visits| - 1]);
      var g := visits[|visits| - 1].granule;
      if g > m then g else m
  }

  lemma {:induction false} MaxGranuleIsMaximum(visits: seq<Visit>)
    ensures MaxGranule(visits) >= 0 && forall i :: 0 <= i < |visits| ==> visits[i].granule <= MaxGranule(visits)
    ensures MaxGranule(visits) == 0 || exists i :: 0 <= i < |visits| && visits[i].granule == MaxGranule(visits)
  {
    if visits != [] {
      var front := visits[..|visits| - 1];
      MaxGranuleIsMaximum(front);
      assert forall i :: 0 <= i < |front| ==> front[i] == visits[i];
    }
  }

  method PageSize(table: seq<byte>) returns (size: nat)
    ensures size == Sum(table)
  {
    size := 0;
    for k := 0 to |table|
      invariant size == Sum(table[..k])
    {
      assert table[..k + 1][..k] == table[..k];
      size := size + table[k] as nat;
    }
    assert table[..|table|] == table;
  }

  lemma SliceOfSlice(data: seq<byte>, p: nat, q: nat, i: nat, j: nat)
    requires p <= q <= |data| && i <= j <= q - p
    ensures data[p..q][i..j] == data[p + i..p + j]
  {
    var a, b := data[p..q][i..j], data[p + i..p + j];
    assert |a| == |b| && forall k :: 0 <= k < |a| ==> a[k] == b[k];
  }

  lemma MaxGranuleSnoc(visits: seq<Visit>, visit: Visit)
    ensures MaxGranule(visits + [visit]) ==
            if visit.granule > MaxGranule(visits) then visit.granule else MaxGranule(visits)
  {
    assert (visits + [visit])[..|visits|] == visits;
  }

  /** One turn of the scan at a captured header, with `visits` already seen. */
  lemma ScanStep(data: seq<byte>, p: nat, visits: seq<Visit>)
    requires p + HEADER <= |data| && CapturedAt(data, p)
    ensures var visit, body := Visit(p, GranuleAt(data, p)), p + HEADER + data[p + 26] as nat;
            && visits + ScanFrom(data, p) ==
               (visits + [visit])
               + (if body > |data| then [] else ScanFrom(data, body + Sum(data[p + HEADER..body])))
            && MaxGranule(visits + [visit]) ==
               if visit.granule > MaxGranule(visits) then visit.granule else MaxGranule(visits)
  {
    var visit := Visit(p, GranuleAt(data, p));
    MaxGranuleSnoc(visits, visit);
    ScanCaptured(data, p);
    PageEnds(data, p);
    hide *;
    AssociativeConcat(visits, visit, AfterPage(data, p));
  }

  function AfterPage(data: seq<byte>, p: nat): seq<Visit>
    requires p + HEADER <= |data|
  {
    var body := p + HEADER + data[p + 26] as nat;
    if body > |data| then [] else ScanFrom(data, body + Sum(data[p + HEADER..body]))
  }

  lemma ScanCaptured(data: seq<byte>, p: nat)
    requires p + HEADER <= |data| && CapturedAt(data, p)
    ensures ScanFrom(data, p) == [Visit(p, GranuleAt(data, p))] + AfterPage(data, p)
  {
    hide GranuleAt, Sum, CapturedAt;
  }

  /** Where the scan goes on after a page. */
  lemma PageEnds(data: seq<byte>, p: nat)
    requires p + HEADER <= |data|
    ensures var body := p + HEADER + data[p + 26] as nat;
            AfterPage(data, p) == if body > |data| then [] else ScanFrom(data, body + Sum(data[p + HEADER..body]))
  {
    hide ScanFrom, Sum;
  }

  lemma AssociativeConcat(visits: seq<Visit>, visit: Visit, rest: seq<Visit>)
    ensures visits + ([visit] + rest) == (visits + [visit]) + rest
  {
  }

  /** One turn of the scan where nothing is captured. */
  lemma ScanMiss(data: seq<byte>, p: nat)
    requires p + HEADER <= |data| && !CapturedAt(data, p)
    ensures ScanFrom(data, p) == ScanFrom(data, p + 1)
  {
  }

  /** What the 27 bytes read at `p` say. */
  lemma HeaderFields(data: seq<byte>, p: nat)
    requires p + HEADER <= |data|
    ensures var buf := data[p..p + HEADER];
            && (CapturedAt(buf, 0) <==> CapturedAt(data, p))
            && Signed(Unsigned(buf[6..14])) == GranuleAt(data, p) && buf[26] == data[p + 26]
  {
    SliceOfSlice(data, p, p + HEADER, 6, 14);
  }

  /** The scan terminates on every input although it seeks backwards, and keeps the largest granule position. */
  method GetOpusDuration(data: seq<byte>) returns (duration: real)
    ensures duration == MaxGranule(ScanFrom(data, 0)) as real / 48000.0
  {
    var total := 0;
    var pos := 0;
    ghost var visits: seq<Visit> := [];
    assert MaxGranule([]) == 0 && [] + ScanFrom(data, 0) == ScanFrom(data, 0);
    hide *;
    while true
      invariant pos >= 0
      invariant total == MaxGranule(visits)
      invariant visits + ScanFrom(data, pos) == ScanFrom(data, 0)
      decreases |data| - pos
    {
      var n := if pos >= |data| then 0 else if |data| - pos < HEADER then |data| - pos else HEADER;
      if n == 0 || n < HEADER {
        break;
      }
      var buf := data[pos..pos + HEADER];
      ghost var start := pos;
      HeaderFields(data, start);
      pos := pos + HEADER;
      if !CapturedAt(buf, 0) {
        ScanMiss(data, start);
        pos := pos - 26;
        continue;
      }
      ScanStep(data, start, visits);
      var granulePos := Signed(Unsigned(buf[6..14]));
      if granulePos > total {
        total := granulePos;
      }
      visits := visits + [Visit(start, GranuleAt(data, start))];
      var numSegments := buf[26] as nat;
      if pos + numSegments > |data| {
        pos := |data|;
        PastTheEnd(data, pos);
        break;
      }
      var segmentTable := data[pos..pos + numSegments];
      pos := pos + numSegments;
      var pageSize := PageSize(segmentTable);
      pos := pos + pageSize;
    }
    PastTheEnd(data, pos);
    assert visits + [] == visits;
    duration := total as real / SAMPLE_RATE;
  }

  lemma PastTheEnd(data: seq<byte>, p: nat)
    requires p + HEADER > |data|
    ensures ScanFrom(data, p) == []
  {
  }

  // ---------------------------------------------------------------- streams of pages and junk

  /** A page as section 6 of RFC 3533 lays it out; `flags` and `rest` are the header fields not looked at. */
  datatype Page = Page(flags: seq<byte>, granule: int, rest: seq<byte>, table: seq<byte>, payload: seq<byte>)

  predicate WellFormed(page: Page) {
    && |page.flags| == 2 && |page.rest| == 12 && |page.table| <= 255
    && -TWO_63 <= page.granule < TWO_63
    && |page.payload| == Sum(page.table)
  }

  function LittleEndian(n: nat, size: nat): (bytes: seq<byte>)
    ensures |bytes| == size
  {
    if size == 0 then [] else [(n % 256) as byte] + LittleEndian(n / 256, size - 1)
  }

  function Encode(page: Page): seq<byte>
    requires WellFormed(page)
  {
    [O, G, G, S] + page.flags + LittleEndian(UnsignedGranule(page), 8) + page.rest
    + [|page.table| as byte] + page.table + page.payload
  }

  function Pow256(k: nat): nat {
    if k == 0 then 1 else 256 * Pow256(k - 1)
  }

  lemma {:induction false} LittleEndianRoundTrip(n: nat, size: nat)
    requires n < Pow256(size)
    ensures Unsigned(LittleEndian(n, size)) == n
  {
    if size > 0 {
      LittleEndianRoundTrip(n / 256, size - 1);
    }
  }

  function UnsignedGranule(page: Page): nat
    requires WellFormed(page)
  {
    if page.granule < 0 then page.granule + TWO_64 else page.granule
  }

  /** The fields of an encoded page. */
  lemma EncodedFields(page: Page)
    requires WellFormed(page)
    ensures var bytes := Encode(page);
            && |bytes| == HEADER + |page.table| + |page.payload|
            && CapturedAt(bytes, 0) && bytes[6..14] == LittleEndian(UnsignedGranule(page), 8)
            && bytes[26] as int == |page.table| && bytes[HEADER..HEADER + |page.table|] == page.table
  {
    hide LittleEndian, Sum;
  }

  lemma GranuleRoundTrip(page: Page)
    requires WellFormed(page)
    ensures Signed(Unsigned(LittleEndian(UnsignedGranule(page), 8))) == page.granule
  {
    assert Pow256(8) == TWO_64;
    LittleEndianRoundTrip(UnsignedGranule(page), 8);
    hide LittleEndian, Unsigned;
  }

  /** Where the fields of an encoded page are, when it starts at `p`. */
  lemma EncodedAt(data: seq<byte>, p: nat, page: Page)
    requires WellFormed(page) && p + |Encode(page)| <= |data| && data[p..p + |Encode(page)|] == Encode(page)
    ensures |Encode(page)| == HEADER + |page.table| + |page.payload|
    ensures CapturedAt(data, p) && data[p + 26] as int == |page.table|
    ensures data[p + HEADER..p + HEADER + |page.table|] == page.table
    ensures GranuleAt(data, p) == page.granule
  {
    hide Encode, LittleEndian, Unsigned, Signed, Sum;
    var bytes := Encode(page);
    var end := p + |bytes|;
    EncodedFields(page);
    GranuleRoundTrip(page);
    assert forall i :: 0 <= i < |bytes| ==> bytes[i] == data[p + i];
    SliceOfSlice(data, p, end, 6, 14);
    SliceOfSlice(data, p, end, HEADER, HEADER + |page.table|);
  }

  /** The capture pattern occurs nowhere in the junk. */
  predicate NoCapture(junk: seq<byte>) {
    forall k: nat :: k < |junk| ==> !CapturedAt(junk, k)
  }

  datatype Chunk = Chunk(junk: seq<byte>, page: Page)

  predicate GoodChunks(chunks: seq<Chunk>) {
    forall i :: 0 <= i < |chunks| ==> WellFormed(chunks[i].page) && NoCapture(chunks[i].junk)
  }

  /** Junk and pages in turn, and junk at the end. */
  function Stream(chunks: seq<Chunk>, tail: seq<byte>): seq<byte>
    requires GoodChunks(chunks)
  {
    if chunks == [] then tail else chunks[0].junk + (Encode(chunks[0].page) + Stream(chunks[1..], tail))
  }

  /** The page starts and granule positions of such a stream, when it begins at offset `base`. */
  function Pages(chunks: seq<Chunk>, base: nat): seq<Visit>
    requires GoodChunks(chunks)
  {
    if chunks == [] then []
    else
      var start := base + |chunks[0].junk|;
      [Visit(start, chunks[0].page.granule)] + Pages(chunks[1..], start + |Encode(chunks[0].page)|)
  }

  /** Resynchronising: where nothing is captured the scanner moves on byte by byte. */
  lemma {:induction false} SkipJunk(data: seq<byte>, p: nat, q: nat)
    requires p <= q && forall k :: p <= k < q ==> !CapturedAt(data, k)
    ensures ScanFrom(data, p) == ScanFrom(data, q)
    decreases q - p
  {
    if p < q && p + HEADER <= |data| {
      SkipJunk(data, p + 1, q);
    }
  }

  /** The capture pattern does not overlap itself, so none can start in the junk and end in the next page. */
  lemma JunkCapturesNothing(data: seq<byte>, p: nat, q: nat)
    requires p <= q <= |data| && NoCapture(data[p..q])
    requires q == |data| || CapturedAt(data, q)
    ensures forall k :: p <= k < q ==> !CapturedAt(data, k)
  {
    forall k | p <= k < q
      ensures !CapturedAt(data, k)
    {
      if k + 4 <= q {
        assert !CapturedAt(data[p..q], k - p);
      } else {
        assert q < |data| ==> data[q] == O;
      }
    }
  }

  lemma ScanPage(data: seq<byte>, p: nat, page: Page)
    requires WellFormed(page) && p + |Encode(page)| <= |data| && data[p..p + |Encode(page)|] == Encode(page)
    ensures ScanFrom(data, p) == [Visit(p, page.granule)] + ScanFrom(data, p + |Encode(page)|)
  {
    EncodedAt(data, p, page);
    hide Encode, GranuleAt, Sum, CapturedAt;
  }

  lemma ScanTail(data: seq<byte>, base: nat)
    requires base <= |data| && NoCapture(data[base..])
    ensures ScanFrom(data, base) == []
  {
    assert data[base..|data|] == data[base..];
    JunkCapturesNothing(data, base, |data|);
    SkipJunk(data, base, |data|);
  }

  lemma {:induction false} ScanFindsPages(data: seq<byte>, base: nat, chunks: seq<Chunk>, tail: seq<byte>)
    requires GoodChunks(chunks) && NoCapture(tail)
    requires base <= |data| && data[base..] == Stream(chunks, tail)
    ensures ScanFrom(data, base) == Pages(chunks, base)
    decreases |chunks|
  {
    hide Encode, ScanFrom, NoCapture, WellFormed, CapturedAt;
    if chunks == [] {
      ScanTail(data, base);
    } else {
      var junk, page := chunks[0].junk, chunks[0].page;
      ScanChunk(data, base, junk, page, Stream(chunks[1..], tail));
      ScanFindsPages(data, base + |junk| + |Encode(page)|, chunks[1..], tail);
    }
  }

  /** Junk is passed over, then the page is taken. */
  lemma ScanChunk(data: seq<byte>, base: nat, junk: seq<byte>, page: Page, rest: seq<byte>)
    requires NoCapture(junk) && WellFormed(page)
    requires base <= |data| && data[base..] == junk + (Encode(page) + rest)
    ensures var start := base + |junk|; var end := start + |Encode(page)|;
            && end <= |data| && data[end..] == rest
            && ScanFrom(data, base) == [Visit(start, page.granule)] + ScanFrom(data, end)
  {
    hide Encode, ScanFrom, NoCapture, WellFormed, CapturedAt, GranuleAt;
    var start := base + |junk|;
    CutStream(data, base, junk, Encode(page) + rest);
    CutStream(data, start, Encode(page), rest);
    EncodedAt(data, start, page);
    ScanPage(data, start, page);
    JunkCapturesNothing(data, base, start);
    SkipJunk(data, base, start);
  }

  lemma CutStream(data: seq<byte>, base: nat, head: seq<byte>, rest: seq<byte>)
    requires base <= |data| && data[base..] == head + rest
    ensures base + |head| <= |data|
    ensures data[base..base + |head|] == head && data[base + |head|..] == rest
  {
  }

  /**
   On well-formed pages with arbitrary junk between them that does not contain the capture pattern, the
   scanner takes exactly the page headers, in order.
   */
  lemma ScannerVisitsExactlyThePages(chunks: seq<Chunk>, tail: seq<byte>)
    requires GoodChunks(chunks) && NoCapture(tail)
    ensures ScanFrom(Stream(chunks, tail), 0) == Pages(chunks, 0)
  {
    var data := Stream(chunks, tail);
    assert data[0..] == data;
    ScanFindsPages(data, 0, chunks, tail);
  }

  lemma {:induction false} PagesAre(chunks: seq<Chunk>, base: nat)
    requires GoodChunks(chunks)
    ensures |Pages(chunks, base)| == |chunks|
    ensures forall i :: 0 <= i < |chunks| ==> Pages(chunks, base)[i].granule == chunks[i].page.granule
  {
    hide Encode, WellFormed, NoCapture;
    if chunks != [] {
      var rest := chunks[1..];
      assert forall i :: 0 <= i < |rest| ==> rest[i] == chunks[i + 1];
      var next := base + |chunks[0].junk| + |Encode(chunks[0].page)|;
      PagesAre(rest, next);
      assert Pages(chunks, base)[1..] == Pages(rest, next);
    }
  }

  /** So the duration is the largest granule position of the pages, or 0, at 48 kHz. */
  lemma DurationIsLargestGranule(chunks: seq<Chunk>, tail: seq<byte>)
    requires GoodChunks(chunks) && NoCapture(tail)
    ensures var ticks := MaxGranule(ScanFrom(Stream(chunks, tail), 0));
            && ticks >= 0 && (forall i :: 0 <= i < |chunks| ==> chunks[i].page.granule <= ticks)
            && (ticks == 0 || exists i :: 0 <= i < |chunks| && chunks[i].page.granule == ticks)
  {
    ScannerVisitsExactlyThePages(chunks, tail);
    PagesAre(chunks, 0);
    MaxGranuleIsMaximum(Pages(chunks, 0));
  }
}
