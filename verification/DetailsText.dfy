/**
 Paging of long values: at most 45 glyphs a page, broken at the last space when there
 is one. The count and the fetch walk the text separately and must agree.
 */
module DetailsText {
  import opened Bytes
  import opened Neighbors
  import opened Texts

  const GLYPHS_PER_PAGE := 45
  const SPACE: byte := 0x20

  /** `"N/A"` */
  const NOT_AVAILABLE: CString := [0x4E, 0x2F, 0x41]

  /** The bytes of a C string, without its NUL. */
  type CString = s: seq<byte> | NulFree(s)

  // ---- Glyphs ----

  predicate Continuation(b: byte) {
    0x80 <= b < 0xC0
  }

  function DeclaredLength(first: byte): (n: nat)
    ensures 1 <= n <= 4
  {
    if 0xC0 <= first < 0xE0 then 2 else if 0xE0 <= first < 0xF0 then 3 else if 0xF0 <= first < 0xF8 then 4 else 1
  }

  /** Bytes of the glyph at an offset: a complete UTF-8 sequence, or a single byte. */
  function GlyphLength(t: CString, o: nat): (n: nat)
    requires o < |t|
    ensures 1 <= n <= 4 && o + n <= |t|
    ensures t[o] == SPACE ==> n == 1
  {
    var n := DeclaredLength(t[o]);
    if n > |t| - o || (exists k :: o < k < o + n && !Continuation(t[k])) then 1 else n
  }

  method SequenceLength(t: CString, o: nat) returns (length: nat)
    requires o < |t|
    ensures length == GlyphLength(t, o)
  {
    length := DeclaredLength(t[o]);
    if length > |t| - o {
      return 1;
    }
    for index := 1 to length
      invariant forall k :: o < k < o + index ==> Continuation(t[k])
    {
      if !Continuation(t[o + index]) {
        return 1;
      }
    }
  }

  /** Stepping by glyphs from a reaches b in n steps. */
  predicate Steps(t: CString, a: nat, b: nat, n: nat)
    requires a <= |t| && b <= |t|
    decreases n
  {
    if n == 0 then a == b else a < |t| && Steps(t, a + GlyphLength(t, a), b, n - 1)
  }

  lemma {:induction false} StepsJoin(t: CString, a: nat, b: nat, c: nat, m: nat, n: nat)
    requires a <= |t| && b <= |t| && c <= |t| && Steps(t, a, b, m) && Steps(t, b, c, n)
    ensures Steps(t, a, c, m + n)
    decreases m
  {
    if m > 0 {
      StepsJoin(t, a + GlyphLength(t, a), b, c, m - 1, n);
    }
  }

  lemma {:induction false} StepsAdvance(t: CString, a: nat, b: nat, n: nat)
    requires a <= |t| && b <= |t| && Steps(t, a, b, n)
    ensures a + n <= b <= a + 4 * n
    decreases n
  {
    if n > 0 {
      StepsAdvance(t, a + GlyphLength(t, a), b, n - 1);
    }
  }

  // ---- Code points ----

  /** The UTF-8 encoding of a code point (section 3 of RFC 3629). */
  function Utf8(c: nat): (s: seq<byte>)
    requires c < 0x11_0000
    ensures 1 <= |s| <= 4
  {
    if c < 0x80 then [c]
    else if c < 0x800 then [0xC0 + c / 0x40, 0x80 + c % 0x40]
    else if c < 0x1_0000 then [0xE0 + c / 0x1000, 0x80 + c / 0x40 % 0x40, 0x80 + c % 0x40]
    else [0xF0 + c / 0x4_0000, 0x80 + c / 0x1000 % 0x40, 0x80 + c / 0x40 % 0x40, 0x80 + c % 0x40]
  }

  predicate AllCodePoints(cs: seq<nat>) {
    forall k :: 0 <= k < |cs| ==> 0 < cs[k] < 0x11_0000
  }

  function Utf8Text(cs: seq<nat>): seq<byte>
    requires AllCodePoints(cs)
  {
    if cs == [] then [] else Utf8Text(cs[..|cs| - 1]) + Utf8(cs[|cs| - 1])
  }

  lemma Utf8NulFree(c: nat)
    requires 0 < c < 0x11_0000
    ensures NulFree(Utf8(c))
  {
  }

  lemma {:induction false} Utf8TextNulFree(cs: seq<nat>)
    requires AllCodePoints(cs)
    ensures NulFree(Utf8Text(cs))
  {
    hide Utf8;
    if cs != [] {
      Utf8TextNulFree(cs[..|cs| - 1]);
      Utf8NulFree(cs[|cs| - 1]);
    }
  }

  /** An encoded code point is one glyph, whatever stands around it. */
  lemma CodePointIsGlyph(t: CString, o: nat, c: nat)
    requires c < 0x11_0000 && o + |Utf8(c)| <= |t| && t[o..o + |Utf8(c)|] == Utf8(c)
    ensures GlyphLength(t, o) == |Utf8(c)|
  {
    var s := Utf8(c);
    assert forall k :: 0 <= k < |s| ==> t[o + k] == s[k];
    assert forall k :: 1 <= k < |s| ==> Continuation(s[k]);
    assert DeclaredLength(s[0]) == |s|;
  }

  /** Text encoded in UTF-8 has as many glyphs as code points. */
  lemma {:induction false} Utf8Steps(t: CString, cs: seq<nat>, rest: seq<byte>)
    requires AllCodePoints(cs) && t == Utf8Text(cs) + rest
    ensures Steps(t, 0, |Utf8Text(cs)|, |cs|)
    decreases |cs|
  {
    hide Utf8, GlyphLength;
    if cs != [] {
      var n := |cs| - 1;
      var c, o := cs[n], |Utf8Text(cs[..n])|;
      ConcatAssociative(Utf8Text(cs[..n]), Utf8(c), rest);
      Utf8Steps(t, cs[..n], Utf8(c) + rest);
      assert t[o..o + |Utf8(c)|] == Utf8(c);
      CodePointIsGlyph(t, o, c);
      OneGlyph(t, o);
      StepsJoin(t, 0, o, o + |Utf8(c)|, n, 1);
    }
  }

  lemma OneGlyph(t: CString, o: nat)
    requires o < |t|
    ensures Steps(t, o, o + GlyphLength(t, o), 1)
  {
    var next := o + GlyphLength(t, o);
    assert Steps(t, next, next, 0);
  }

  // ---- One page ----

  /** Where the scan of a page stops, and the last space it passed. */
  function Scan(t: CString, o: nat, glyphs: nat, lastSpace: Option<nat>): (nat, Option<nat>)
    requires o <= |t| && glyphs <= GLYPHS_PER_PAGE
    decreases GLYPHS_PER_PAGE - glyphs
  {
    if o == |t| || glyphs == GLYPHS_PER_PAGE then (o, lastSpace)
    else Scan(t, o + GlyphLength(t, o), glyphs + 1, if t[o] == SPACE then Some(o) else lastSpace)
  }

  /** The last space between two offsets, or none. */
  predicate LastSpaceIs(t: CString, start: nat, end: nat, space: Option<nat>)
    requires start <= end <= |t|
  {
    && (space.Some? ==> start <= space.value < end && t[space.value] == SPACE)
    && forall k :: (if space.Some? then space.value + 1 else start) <= k < end ==> t[k] != SPACE
  }

  /** Some number of whole glyphs, less than a page of them, leads to the space. */
  predicate SpaceStep(t: CString, start: nat, space: Option<nat>)
    requires start <= |t| && (space.Some? ==> space.value <= |t|)
  {
    space.Some? ==> exists k: nat :: k < GLYPHS_PER_PAGE && Steps(t, start, space.value, k)
  }

  /** A space is a glyph of its own. */
  lemma GlyphSpaces(t: CString, o: nat)
    requires o < |t|
    ensures forall k :: o < k < o + GlyphLength(t, o) ==> t[k] != SPACE
  {
  }

  lemma {:induction false} ScanExact(t: CString, start: nat, o: nat, glyphs: nat, lastSpace: Option<nat>)
    requires start <= o <= |t| && glyphs <= GLYPHS_PER_PAGE && Steps(t, start, o, glyphs)
    requires LastSpaceIs(t, start, o, lastSpace) && SpaceStep(t, start, lastSpace)
    ensures var (end, space) := Scan(t, o, glyphs, lastSpace);
      && o <= end <= |t| && (end == |t| || Steps(t, start, end, GLYPHS_PER_PAGE))
      && (o < |t| && glyphs < GLYPHS_PER_PAGE ==> o < end)
      && (exists n: nat :: n <= GLYPHS_PER_PAGE && Steps(t, start, end, n))
      && LastSpaceIs(t, start, end, space) && SpaceStep(t, start, space)
    decreases GLYPHS_PER_PAGE - glyphs
  {
    hide GlyphLength;
    if o < |t| && glyphs < GLYPHS_PER_PAGE {
      var next := o + GlyphLength(t, o);
      OneGlyph(t, o);
      StepsJoin(t, start, o, next, glyphs, 1);
      GlyphSpaces(t, o);
      ScanExact(t, start, next, glyphs + 1, if t[o] == SPACE then Some(o) else lastSpace);
    }
  }

  /** The page's end: all the glyphs that fit, back to the last space if the text goes on. */
  function PageEnd(t: CString, start: nat): (end: nat)
    requires start < |t|
    ensures start < end <= |t|
  {
    assert Steps(t, start, start, 0);
    ScanExact(t, start, start, 0, None);
    var (end, space) := Scan(t, start, 0, None);
    if end < |t| && space.Some? && space.value > start then space.value else end
  }

  /** The page takes what fits, up to 45 glyphs: the rest of the text, or up to the last space inside, or all 45. */
  predicate EndsPage(t: CString, start: nat, full: nat, end: nat)
    requires start < end <= full <= |t|
  {
    if full == |t| then end == full
    else (end < full ==> t[end] == 0x20) && forall k :: start < k < full && t[k] == 0x20 ==> end < full && k <= end
  }

  /** A page has at most 45 glyphs, ends between two of them, and at the last space among them if the text goes on. */
  lemma PageEndExact(t: CString, start: nat) returns (n: nat, full: nat, m: nat)
    requires start < |t|
    ensures 0 < n <= m <= 45 && Steps(t, start, PageEnd(t, start), n)
    ensures start < PageEnd(t, start) <= full <= |t| && Steps(t, start, full, m) && (full < |t| ==> m == 45)
    ensures EndsPage(t, start, full, PageEnd(t, start)) && full - start <= 180
  {
    hide GlyphLength, Scan;
    assert Steps(t, start, start, 0);
    ScanExact(t, start, start, 0, None);
    var (end, space) := Scan(t, start, 0, None);
    full := end;
    if end < |t| {
      m := GLYPHS_PER_PAGE;
    } else {
      m :| m <= GLYPHS_PER_PAGE && Steps(t, start, end, m);
    }
    n := m;
    if end < |t| && space.Some? && space.value > start {
      n :| n < GLYPHS_PER_PAGE && Steps(t, start, space.value, n);
    }
    StepsAdvance(t, start, PageEnd(t, start), n);
    StepsAdvance(t, start, full, m);
  }

  method FindPageEnd(t: CString, start: nat) returns (end: nat)
    requires start < |t|
    ensures end == PageEnd(t, start)
  {
    hide Scan, Steps;
    var offset, lastSpace := ScanPage(t, start);
    if offset < |t| && lastSpace.Some? && lastSpace.value > start {
      return lastSpace.value;
    }
    return offset;
  }

  /** Over the glyphs of one page, remembering the last space. */
  method ScanPage(t: CString, start: nat) returns (offset: nat, lastSpace: Option<nat>)
    requires start < |t|
    ensures (offset, lastSpace) == Scan(t, start, 0, None)
  {
    hide GlyphLength;
    var glyphs := 0;
    offset, lastSpace := start, None;
    while offset < |t| && glyphs < GLYPHS_PER_PAGE
      invariant start <= offset <= |t| && glyphs <= GLYPHS_PER_PAGE
      invariant Scan(t, start, 0, None) == Scan(t, offset, glyphs, lastSpace)
      decreases GLYPHS_PER_PAGE - glyphs
    {
      var length := SequenceLength(t, offset);
      if t[offset] == SPACE {
        lastSpace := Some(offset);
      }
      offset := offset + length;
      glyphs := glyphs + 1;
    }
  }

  function SkipSpaces(t: CString, o: nat): (r: nat)
    requires o <= |t|
    ensures o <= r <= |t| && (r < |t| ==> t[r] != SPACE)
    ensures forall k :: o <= k < r ==> t[k] == SPACE
    decreases |t| - o
  {
    if o < |t| && t[o] == SPACE then SkipSpaces(t, o + 1) else o
  }

  method FindNextStart(t: CString, o: nat) returns (r: nat)
    requires o <= |t|
    ensures r == SkipSpaces(t, o)
  {
    r := o;
    while r < |t| && t[r] == SPACE
      invariant o <= r <= |t| && SkipSpaces(t, o) == SkipSpaces(t, r)
    {
      r := r + 1;
    }
  }

  lemma {:induction false} SpacesAreSteps(t: CString, o: nat)
    requires o <= |t|
    ensures Steps(t, o, SkipSpaces(t, o), SkipSpaces(t, o) - o)
    decreases |t| - o
  {
    if o < |t| && t[o] == SPACE {
      SpacesAreSteps(t, o + 1);
    }
  }

  // ---- All pages ----

  datatype Page = Page(start: nat, end: nat)

  /** The pages from an offset on. */
  function Pages(t: CString, o: nat): seq<Page>
    requires o <= |t|
    decreases |t| - o
  {
    if o == |t| then [] else [Page(o, PageEnd(t, o))] + Pages(t, SkipSpaces(t, PageEnd(t, o)))
  }

  /** Pages follow one another, never overlap, and start and end between glyphs of the whole text. */
  lemma {:induction false} PagesExact(t: CString, o: nat, before: nat, p: nat) returns (n: nat, m: nat)
    requires o <= |t| && Steps(t, 0, o, before) && p < |Pages(t, o)|
    ensures var page := Pages(t, o)[p];
      && o <= page.start < page.end <= |t| && page.end - page.start <= 180
      && page.end == PageEnd(t, page.start)
      && Steps(t, 0, page.start, n) && Steps(t, page.start, page.end, m) && 0 < m <= GLYPHS_PER_PAGE
      && (p > 0 ==> Pages(t, o)[p - 1].end <= page.start)
    decreases |t| - o
  {
    hide Steps, GlyphLength, PageEnd, SkipSpaces;
    var end := PageEnd(t, o);
    var full, most: nat;
    m, full, most := PageEndExact(t, o);
    if p == 0 {
      n := before;
    } else {
      var next := SkipSpaces(t, end);
      StepsJoin(t, 0, o, end, before, m);
      SpacesAreSteps(t, end);
      StepsJoin(t, 0, end, next, before + m, next - end);
      n, m := PagesExact(t, next, before + m + (next - end), p - 1);
      PagesStart(t, next);
    }
  }

  lemma PagesStart(t: CString, o: nat)
    requires o <= |t|
    ensures Pages(t, o) != [] ==> Pages(t, o)[0].start == o
  {
  }

  // ---- Nothing but spaces is lost ----

  function WithoutSpaces(s: seq<byte>): seq<byte> {
    if s == [] then [] else (if s[0] == SPACE then [] else [s[0]]) + WithoutSpaces(s[1..])
  }

  lemma {:induction false} WithoutSpacesConcat(a: seq<byte>, b: seq<byte>)
    ensures WithoutSpaces(a + b) == WithoutSpaces(a) + WithoutSpaces(b)
  {
    if a == [] {
      assert a + b == b;
    } else {
      assert (a + b)[1..] == a[1..] + b;
      WithoutSpacesConcat(a[1..], b);
    }
  }

  lemma {:induction false} OnlySpaces(s: seq<byte>)
    requires forall k :: 0 <= k < |s| ==> s[k] == SPACE
    ensures WithoutSpaces(s) == []
  {
    if s != [] {
      OnlySpaces(s[1..]);
    }
  }

  /** What a fetched page shows. */
  function Shown(t: CString, page: Page): (s: seq<byte>)
    requires page.start <= page.end <= |t|
    ensures |s| <= page.end - page.start
  {
    var all := t[page.start..page.end];
    all[..TrimmedLength(all)]
  }

  lemma ShownWithoutSpaces(t: CString, page: Page)
    requires page.start <= page.end <= |t|
    ensures WithoutSpaces(Shown(t, page)) == WithoutSpaces(t[page.start..page.end])
  {
    var all := t[page.start..page.end];
    var n := TrimmedLength(all);
    TrimmedExact(all);
    assert all == all[..n] + all[n..];
    WithoutSpacesConcat(all[..n], all[n..]);
    OnlySpaces(all[n..]);
  }

  predicate PagesInside(t: CString, pages: seq<Page>) {
    forall k :: 0 <= k < |pages| ==> pages[k].start <= pages[k].end <= |t|
  }

  function Joined(t: CString, pages: seq<Page>): seq<byte>
    requires PagesInside(t, pages)
  {
    if pages == [] then [] else Shown(t, pages[0]) + Joined(t, pages[1..])
  }

  /** The pages in order hold every byte that is not a space, in order. */
  lemma {:induction false} PagesKeepText(t: CString, o: nat)
    requires o <= |t|
    ensures PagesInside(t, Pages(t, o))
    ensures WithoutSpaces(Joined(t, Pages(t, o))) == WithoutSpaces(t[o..])
    decreases |t| - o
  {
    hide PageEnd, SkipSpaces, Shown, WithoutSpaces;
    if o == |t| {
      assert t[o..] == [];
    } else {
      var end := PageEnd(t, o);
      var next := SkipSpaces(t, end);
      PagesKeepText(t, next);
      JoinedCons(t, Page(o, end), Pages(t, next));
      WithoutSpacesConcat(Shown(t, Page(o, end)), Joined(t, Pages(t, next)));
      ShownWithoutSpaces(t, Page(o, end));
      TextSplit(t, o, end, next);
    }
  }

  lemma JoinedCons(t: CString, page: Page, rest: seq<Page>)
    requires page.start <= page.end <= |t| && PagesInside(t, rest)
    ensures PagesInside(t, [page] + rest) && Joined(t, [page] + rest) == Shown(t, page) + Joined(t, rest)
  {
    hide Shown;
    assert ([page] + rest)[1..] == rest;
  }

  lemma TextSplit(t: seq<byte>, o: nat, end: nat, next: nat)
    requires o <= end <= next <= |t| && forall k :: end <= k < next ==> t[k] == SPACE
    ensures WithoutSpaces(t[o..]) == WithoutSpaces(t[o..end]) + WithoutSpaces(t[next..])
  {
    hide WithoutSpaces;
    assert t[o..] == t[o..end] + (t[end..next] + t[next..]);
    WithoutSpacesConcat(t[o..end], t[end..next] + t[next..]);
    WithoutSpacesConcat(t[end..next], t[next..]);
    OnlySpaces(t[end..next]);
  }

  // ---- The two walks ----

  /** The number of pages, as far as one byte can count; a blank value has one page. */
  method PageCount(t: CString) returns (pages: byte)
    ensures t == [] ==> pages == 1
    ensures t != [] ==> pages as int == if |Pages(t, 0)| <= 255 then |Pages(t, 0)| else 255
    ensures forall p: byte :: Counted(t, p) <==> p < pages
  {
    if t == [] {
      return 1;
    }
    var offset := 0;
    pages := 0;
    while offset < |t| && pages < 255
      invariant offset <= |t| && pages as int + |Pages(t, offset)| == |Pages(t, 0)|
      decreases |t| - offset
    {
      var end := FindPageEnd(t, offset);
      pages := pages + 1;
      offset := FindNextStart(t, end);
    }
  }

  /** One page into the output: trimmed, and cut to the output when that is too small. */
  method GetPage(t: CString, page: byte, output: array<byte>) returns (ok: bool)
    requires output.Length > 0
    modifies output
    ensures ok == Fetched(t, page)
    ensures t == [] && ok ==> Text(output[..]) == Cut([0x4E, 0x2F, 0x41], output.Length - 1)
    ensures t != [] && ok ==>
      var p := Pages(t, 0)[page];
      p.start <= p.end <= |t| && Text(output[..]) == Cut(Shown(t, p), output.Length - 1)
    ensures !ok ==> output[0] == 0
  {
    output[0] := 0;
    if t == [] {
      if page == 0 {
        var length := if output.Length - 1 < 3 then output.Length - 1 else 3;
        CopyOut(NOT_AVAILABLE, 0, length, output);
      }
      return page == 0;
    }
    PagesKeepText(t, 0);
    var offset, current := 0, 0;
    while offset < |t|
      invariant offset <= |t| && output[0] == 0
      invariant current <= page as int && current + |Pages(t, offset)| == |Pages(t, 0)|
      invariant Pages(t, 0)[current..] == Pages(t, offset)
      decreases |t| - offset
    {
      var end := FindPageEnd(t, offset);
      assert Pages(t, 0)[current] == Pages(t, offset)[0] == Page(offset, end);
      if current == page as int {
        CopyPage(t, offset, end, output);
        return true;
      }
      assert Pages(t, 0)[current + 1..] == Pages(t, 0)[current..][1..];
      offset := FindNextStart(t, end);
      current := current + 1;
    }
    return false;
  }

  method CopyPage(t: CString, start: nat, end: nat, output: array<byte>)
    requires start <= end <= |t| && output.Length > 0
    modifies output
    ensures Text(output[..]) == Cut(Shown(t, Page(start, end)), output.Length - 1)
  {
    hide TrimmedLength, CLen, Text;
    var length := TrimEnd(t, start, end);
    SliceOfSlice(t, start, end, 0, length);
    if length >= output.Length {
      length := output.Length - 1;
    }
    SliceOfSlice(t, start, end, 0, length);
    CopyOut(t, start, length, output);
  }

  /** The length without the spaces at the end. */
  method TrimEnd(t: CString, start: nat, end: nat) returns (length: nat)
    requires start <= end <= |t|
    ensures length == TrimmedLength(t[start..end])
  {
    ghost var all := t[start..end];
    length := end - start;
    assert all[..length] == all;
    while length > 0 && t[start + length - 1] == SPACE
      invariant length <= |all| && TrimmedLength(all) == TrimmedLength(all[..length])
    {
      assert all[..length][..length - 1] == all[..length - 1];
      length := length - 1;
    }
  }

  method CopyOut(t: CString, start: nat, length: nat, output: array<byte>)
    requires start + length <= |t| && length < output.Length
    modifies output
    ensures Text(output[..]) == t[start..start + length]
  {
    hide CLen;
    for k := 0 to length
      invariant forall j :: 0 <= j < k ==> output[j] == t[start + j]
    {
      output[k] := t[start + k];
    }
    output[length] := 0;
    assert forall j :: 0 <= j < length ==> output[j] == t[start + j] && t[start + j] != 0;
    CLenIs(output[..], length);
    assert output[..][..length] == t[start..start + length];
  }

  /** A blank value is shown on one page. */
  function AllPages(t: CString): nat {
    if t == [] then 1 else |Pages(t, 0)|
  }

  /** The page number is below what PageCount answers. */
  predicate Counted(t: CString, page: byte) {
    page as int < if AllPages(t) <= 255 then AllPages(t) else 255
  }

  /** GetPage answers true for the page number. */
  predicate Fetched(t: CString, page: byte) {
    page as int < AllPages(t)
  }

  /**
   Count and fetch agree on every page number a byte can hold exactly when the text has
   no more than 255 pages: with more, page 255 can be fetched but is not counted.
   */
  lemma CountAgrees(t: CString)
    ensures (forall p: byte :: Counted(t, p) <==> Fetched(t, p)) <==> AllPages(t) <= 255
  {
    hide AllPages;
    if AllPages(t) > 255 {
      assert Fetched(t, 255) && !Counted(t, 255);
    }
  }

  /** Every page has at least one byte. */
  lemma {:induction false} PagesBound(t: CString, o: nat)
    requires o <= |t|
    ensures |Pages(t, o)| <= |t| - o
    decreases |t| - o
  {
    hide PageEnd, SkipSpaces;
    if o < |t| {
      PagesBound(t, SkipSpaces(t, PageEnd(t, o)));
    }
  }

  /** A test of the length before the call is enough: texts of fewer than 256 bytes agree. */
  lemma ShortTextAgrees(t: CString, p: byte)
    requires |t| < 256
    ensures Counted(t, p) <==> Fetched(t, p)
  {
    PagesBound(t, 0);
    CountAgrees(t);
  }

  // ---- A text that does not agree ----

  /** A text of 45-byte words without a space between them. */
  function Solid(length: nat): (t: CString)
    ensures |t| == length && forall k :: 0 <= k < length ==> t[k] == 0x41
  {
    seq(length, _ => 0x41)
  }

  lemma {:induction false} SolidScan(length: nat, o: nat, glyphs: nat)
    requires o <= length && glyphs <= GLYPHS_PER_PAGE
    ensures var room := GLYPHS_PER_PAGE - glyphs;
      Scan(Solid(length), o, glyphs, None) == (if length - o <= room then length else o + room, None)
    decreases GLYPHS_PER_PAGE - glyphs
  {
    hide Solid, GlyphLength;
    if o < length && glyphs < GLYPHS_PER_PAGE {
      SolidGlyph(length, o);
      SolidScan(length, o + 1, glyphs + 1);
    }
  }

  lemma SolidGlyph(length: nat, o: nat)
    requires o < length
    ensures GlyphLength(Solid(length), o) == 1 && Solid(length)[o] != SPACE
  {
    hide Solid;
  }

  lemma {:induction false} SolidPages(pages: nat, k: nat)
    requires k <= pages
    ensures |Pages(Solid(45 * pages), 45 * k)| == pages - k
    decreases pages - k
  {
    hide Solid, Scan;
    var t, o := Solid(45 * pages), 45 * k;
    if k < pages {
      SolidScan(45 * pages, o, 0);
      assert PageEnd(t, o) == o + 45 && SkipSpaces(t, o + 45) == o + 45;
      SolidPages(pages, k + 1);
    }
  }

  /** For every number of pages past 255 there is a text whose page 255 is fetched and not counted. */
  lemma LongTextDisagrees(pages: nat) returns (t: CString)
    requires pages > 255
    ensures AllPages(t) == |Pages(t, 0)| == pages && Fetched(t, 255) && !Counted(t, 255)
  {
    SolidPages(pages, 0);
    t := Solid(45 * pages);
  }
}
