/**
 * The streaming request parser: one command (an array of bulk strings) is
 * read from the front of a buffer, or the attempt reports that more bytes are
 * needed, or that the bytes break the protocol. Arguments are (offset, length)
 * views into the buffer.
 *
 * ParseFrame / ParseElements are the reference definition of one attempt; the
 * Parser class is the stateful parser whose Parse method is proved to agree
 * with them. The lemmas show what an attempt promises: a complete or
 * malformed verdict never changes when more bytes arrive, every proper prefix
 * of a complete command is incomplete, the encoders' frames parse back to
 * their strings, and draining a stream is independent of how it is chunked.
 */
module RespParser {
  import opened Wrappers
  import opened Decimal
  import opened Resp

  /** An argument view: `len` bytes of the buffer starting at offset `off`. */
  datatype Slice = Slice(off: nat, len: nat)

  /** Outcome of one parse attempt. */
  datatype ParseResult = Complete(args: seq<Slice>, consumed: nat) | Incomplete | Malformed

  predicate IsCrlfAt(buf: string, i: nat) {
    i + 1 < |buf| && buf[i] == '\r' && buf[i + 1] == '\n'
  }

  /** find_terminator: the first "\r\n" at or after `from`, if any. */
  function FindTerminator(buf: string, from: nat): (r: Option<nat>)
    ensures r.Some? ==> from <= r.value && IsCrlfAt(buf, r.value)
    decreases |buf| - from
  {
    if from + 1 >= |buf| then None
    else if buf[from] == '\r' && buf[from + 1] == '\n' then Some(from)
    else FindTerminator(buf, from + 1)
  }

  /** The terminator found is the first one at or after `from`; none found means there is none. */
  lemma {:induction false} FindTerminatorIsFirst(buf: string, from: nat)
    ensures var r := FindTerminator(buf, from);
      && (r.Some? ==> forall j :: from <= j < r.value ==> !IsCrlfAt(buf, j))
      && (r.None? ==> forall j :: from <= j ==> !IsCrlfAt(buf, j))
    decreases |buf| - from
  {
    if from + 1 < |buf| && (buf[from] != '\r' || buf[from + 1] != '\n') {
      FindTerminatorIsFirst(buf, from + 1);
    }
  }

  /** The view lies inside buf[..bound], between a CRLF before it and a CRLF after it. */
  predicate SliceWithin(buf: string, s: Slice, bound: nat) {
    && 2 <= s.off
    && s.off + s.len + 2 <= bound
    && IsCrlfAt(buf, s.off - 2)
    && IsCrlfAt(buf, s.off + s.len)
  }

  /** Every view lies inside buf[..bound], between a CRLF before it and a CRLF after it. */
  predicate SlicesWithin(buf: string, args: seq<Slice>, bound: nat) {
    bound <= |buf| && forall i :: 0 <= i < |args| ==> SliceWithin(buf, args[i], bound)
  }

  /** Outcome of reading the array header "*<count>\r\n" at the front of the buffer. */
  datatype Header = Header(count: nat, next: nat) | HeaderIncomplete | HeaderMalformed

  function ParseHeader(buf: string): (h: Header)
    ensures h.Header? ==> 3 <= h.next <= |buf|
  {
    if |buf| == 0 then HeaderIncomplete
    else if buf[0] != '*' then HeaderMalformed
    else match FindTerminator(buf, 1)
      case None => HeaderIncomplete
      case Some(e) =>
        match FromChars(buf[1..e])
        case None => HeaderMalformed
        case Some(n) => if n < 0 then HeaderMalformed else Header(n, e + 2)
  }

  /** Outcome of reading one element "$<len>\r\n<len bytes>\r\n" at `cursor`. */
  datatype Element = Element(slice: Slice, next: nat) | ElementIncomplete | ElementMalformed

  function ParseElement(buf: string, cursor: nat): (r: Element)
    ensures r.Element? ==> cursor + 2 < r.slice.off && r.slice.off + r.slice.len + 2 == r.next <= |buf|
  {
    if cursor >= |buf| then ElementIncomplete
    else if buf[cursor] != '$' then ElementMalformed
    else match FindTerminator(buf, cursor + 1)
      case None => ElementIncomplete
      case Some(e) =>
        match FromChars(buf[cursor + 1..e])
        case None => ElementMalformed
        case Some(len) =>
          if len < 0 then ElementMalformed
          else if e + 2 + len + 2 > |buf| then ElementIncomplete
          else if buf[e + 2 + len] != '\r' || buf[e + 2 + len + 1] != '\n' then ElementMalformed
          else Element(Slice(e + 2, len), e + 2 + len + 2)
  }

  /** Views collected in front of an attempt's own views. */
  function Prepend(views: seq<Slice>, r: ParseResult): ParseResult {
    if r.Complete? then Complete(views + r.args, r.consumed) else r
  }

  /** The loop over the `remaining` elements of one command, starting at `cursor`. */
  function ParseElements(buf: string, cursor: nat, remaining: nat): (r: ParseResult)
    requires cursor <= |buf|
    ensures r.Complete? ==> cursor <= r.consumed <= |buf| && |r.args| == remaining
    decreases remaining
  {
    if remaining == 0 then Complete([], cursor)
    else match ParseElement(buf, cursor)
      case ElementIncomplete => Incomplete
      case ElementMalformed => Malformed
      case Element(slice, next) => Prepend([slice], ParseElements(buf, next, remaining - 1))
  }

  /** One parse attempt on a buffer, starting at offset 0. */
  function ParseFrame(buf: string): (r: ParseResult)
    ensures r.Complete? ==> 0 < r.consumed <= |buf|
  {
    match ParseHeader(buf)
    case HeaderIncomplete => Incomplete
    case HeaderMalformed => Malformed
    case Header(n, next) => ParseElements(buf, next, n)
  }

  /** An element's view sits between the CRLF ending its length line and the CRLF ending its data. */
  lemma ParseElementFraming(buf: string, cursor: nat)
    requires ParseElement(buf, cursor).Element?
    ensures var s := ParseElement(buf, cursor).slice;
      IsCrlfAt(buf, s.off - 2) && IsCrlfAt(buf, s.off + s.len)
  {
  }

  /** The views the loop collects are framed by CRLFs inside the consumed bytes. */
  lemma {:induction false} ParseElementsWithin(buf: string, cursor: nat, remaining: nat)
    requires cursor <= |buf|
    ensures var r := ParseElements(buf, cursor, remaining);
      r.Complete? ==> SlicesWithin(buf, r.args, r.consumed)
    decreases remaining
  {
    if remaining > 0 {
      var el := ParseElement(buf, cursor);
      if el.Element? {
        ParseElementsWithin(buf, el.next, remaining - 1);
        var rest := ParseElements(buf, el.next, remaining - 1);
        if rest.Complete? {
          ElementWithin(buf, cursor, rest.consumed);
          SlicesWithinCons(buf, el.slice, rest.args, rest.consumed);
          ParseElementsStep(buf, cursor, remaining);
        }
      }
    }
  }

  lemma ElementWithin(buf: string, cursor: nat, bound: nat)
    requires ParseElement(buf, cursor).Element? && ParseElement(buf, cursor).next <= bound <= |buf|
    ensures SlicesWithin(buf, [ParseElement(buf, cursor).slice], bound)
  {
    ParseElementFraming(buf, cursor);
  }

  lemma SlicesWithinCons(buf: string, s: Slice, t: seq<Slice>, bound: nat)
    requires SlicesWithin(buf, [s], bound) && SlicesWithin(buf, t, bound)
    ensures SlicesWithin(buf, [s] + t, bound)
  {
    assert [s][0] == s;
    forall i | 0 <= i < |[s] + t| ensures SliceWithin(buf, ([s] + t)[i], bound) {
      if i > 0 {
        assert ([s] + t)[i] == t[i - 1];
      }
    }
  }

  /** A complete command has as many views as its header announces, each framed by CRLFs within the consumed bytes. */
  lemma ParseFrameWithin(buf: string)
    ensures var r := ParseFrame(buf);
      r.Complete? ==> && ParseHeader(buf).Header? && ParseHeader(buf).count == |r.args|
                      && SlicesWithin(buf, r.args, r.consumed)
  {
    var h := ParseHeader(buf);
    if h.Header? {
      ParseElementsWithin(buf, h.next, h.count);
    }
  }

  /** The argument string a view denotes (nothing, for a view that does not fit the buffer). */
  function View(buf: string, s: Slice): string {
    if s.off + s.len <= |buf| then buf[s.off..s.off + s.len] else []
  }

  /** The argument strings the views denote. */
  function Views(buf: string, args: seq<Slice>): seq<string> {
    seq(|args|, i requires 0 <= i < |args| => View(buf, args[i]))
  }

  // ----- a verdict other than "incomplete" is final -----

  lemma {:induction false} FindTerminatorExtend(buf: string, more: string, from: nat)
    requires FindTerminator(buf, from).Some?
    ensures FindTerminator(buf + more, from) == FindTerminator(buf, from)
    decreases |buf| - from
  {
    if buf[from] != '\r' || buf[from + 1] != '\n' {
      FindTerminatorExtend(buf, more, from + 1);
    }
  }

  lemma ParseHeaderExtend(buf: string, more: string)
    requires !ParseHeader(buf).HeaderIncomplete?
    ensures ParseHeader(buf + more) == ParseHeader(buf)
  {
    if buf[0] == '*' {
      FindTerminatorExtend(buf, more, 1);
      var e := FindTerminator(buf, 1).value;
      assert (buf + more)[1..e] == buf[1..e];
    }
  }

  lemma ParseElementExtend(buf: string, more: string, cursor: nat)
    requires !ParseElement(buf, cursor).ElementIncomplete?
    ensures ParseElement(buf + more, cursor) == ParseElement(buf, cursor)
  {
    var big := buf + more;
    if buf[cursor] == '$' {
      FindTerminatorExtend(buf, more, cursor + 1);
      var e := FindTerminator(buf, cursor + 1).value;
      assert big[cursor + 1..e] == buf[cursor + 1..e];
      var len := FromChars(buf[cursor + 1..e]);
      if len.Some? && len.value >= 0 && e + 2 + len.value + 2 <= |buf| {
        assert big[e + 2 + len.value] == buf[e + 2 + len.value];
        assert big[e + 2 + len.value + 1] == buf[e + 2 + len.value + 1];
      }
    }
  }

  lemma {:induction false} ParseElementsExtend(buf: string, more: string, cursor: nat, remaining: nat)
    requires cursor <= |buf|
    requires !ParseElements(buf, cursor, remaining).Incomplete?
    ensures ParseElements(buf + more, cursor, remaining) == ParseElements(buf, cursor, remaining)
    decreases remaining
  {
    if remaining > 0 {
      ParseElementExtend(buf, more, cursor);
      var el := ParseElement(buf, cursor);
      if el.Element? {
        ParseElementsExtend(buf, more, el.next, remaining - 1);
      }
    }
  }

  /** More bytes never change a complete or a malformed verdict. */
  lemma ParseFrameExtend(buf: string, more: string)
    requires !ParseFrame(buf).Incomplete?
    ensures ParseFrame(buf + more) == ParseFrame(buf)
  {
    ParseHeaderExtend(buf, more);
    if ParseHeader(buf).Header? {
      ParseElementsExtend(buf, more, ParseHeader(buf).next, ParseHeader(buf).count);
    }
  }

  // ----- a proper prefix of a complete command is incomplete -----

  lemma {:induction false} FindTerminatorPrefix(buf: string, from: nat, k: nat)
    requires k <= |buf|
    ensures FindTerminator(buf[..k], from) ==
              match FindTerminator(buf, from)
              case Some(e) => if e + 2 <= k then Some(e) else None
              case None => None
    decreases |buf| - from
  {
    var p := buf[..k];
    if from + 1 < |buf| && (buf[from] != '\r' || buf[from + 1] != '\n') && from + 1 < k {
      FindTerminatorPrefix(buf, from + 1, k);
    }
  }

  lemma ParseHeaderPrefix(buf: string, k: nat)
    requires k <= |buf| && ParseHeader(buf).Header?
    ensures ParseHeader(buf[..k]) == if k < ParseHeader(buf).next then HeaderIncomplete else ParseHeader(buf)
  {
    var p := buf[..k];
    if k > 0 {
      FindTerminatorPrefix(buf, 1, k);
      var e := FindTerminator(buf, 1).value;
      if e + 2 <= k {
        assert p[1..e] == buf[1..e];
      }
    }
  }

  lemma ParseElementPrefix(buf: string, k: nat, cursor: nat)
    requires k <= |buf| && ParseElement(buf, cursor).Element?
    ensures ParseElement(buf[..k], cursor) ==
              if k < ParseElement(buf, cursor).next then ElementIncomplete else ParseElement(buf, cursor)
  {
    var p := buf[..k];
    if cursor < k {
      assert p[cursor] == buf[cursor];
      FindTerminatorPrefix(buf, cursor + 1, k);
      var e := FindTerminator(buf, cursor + 1).value;
      if e + 2 <= k {
        assert p[cursor + 1..e] == buf[cursor + 1..e];
        var len := FromChars(buf[cursor + 1..e]).value;
        if e + 2 + len + 2 <= k {
          assert p[e + 2 + len] == buf[e + 2 + len];
          assert p[e + 2 + len + 1] == buf[e + 2 + len + 1];
        }
      }
    }
  }

  lemma {:induction false} ParseElementsPrefix(buf: string, k: nat, cursor: nat, remaining: nat)
    requires cursor <= k <= |buf|
    requires ParseElements(buf, cursor, remaining).Complete?
    requires k < ParseElements(buf, cursor, remaining).consumed
    ensures ParseElements(buf[..k], cursor, remaining) == Incomplete
    decreases remaining
  {
    var el := ParseElement(buf, cursor);
    ParseElementPrefix(buf, k, cursor);
    if el.next <= k {
      ParseElementsPrefix(buf, k, el.next, remaining - 1);
    }
  }

  /** Every proper prefix of a complete command asks for more bytes and is not an error. */
  lemma ParseFramePrefix(buf: string, k: nat)
    requires ParseFrame(buf).Complete? && k < ParseFrame(buf).consumed
    ensures ParseFrame(buf[..k]) == Incomplete
  {
    var h := ParseHeader(buf);
    ParseHeaderPrefix(buf, k);
    if h.next <= k {
      ParseElementsPrefix(buf, k, h.next, h.count);
    }
  }

  // ----- the encoders' frames parse back -----

  /** The bytes a client sends for a command: the array header and one bulk string per argument. */
  function Bulks(vs: seq<string>): string {
    if vs == [] then [] else BulkReply(vs[0]) + Bulks(vs[1..])
  }

  function Frame(vs: seq<string>): string {
    ArrayHeader(|vs|) + Bulks(vs)
  }

  /** The first terminator after a run of bytes that holds no carriage return is the one right after it. */
  lemma FindTerminatorAfterPlainText(buf: string, from: nat, e: nat)
    requires from <= e && IsCrlfAt(buf, e)
    requires forall j :: from <= j < e ==> buf[j] != '\r'
    ensures FindTerminator(buf, from) == Some(e)
  {
    FindTerminatorIsFirst(buf, from);
  }

  /** Where the parts of a bulk string sit when it is found at `pos`. */
  lemma BulkLayout(buf: string, pos: nat, w: string)
    requires pos + |BulkReply(w)| <= |buf| && buf[pos..pos + |BulkReply(w)|] == BulkReply(w)
    ensures var d := NatToDecimal(|w|); var e := pos + 1 + |d|;
      && buf[pos] == '$'
      && buf[pos + 1..e] == d
      && IsCrlfAt(buf, e)
      && buf[e + 2..e + 2 + |w|] == w
      && IsCrlfAt(buf, e + 2 + |w|)
      && e + 2 + |w| + 2 == pos + |BulkReply(w)|
  {
    BulkReplyParts(w);
    LineLayout(buf, pos, '$', NatToDecimal(|w|), w, BulkReply(w));
  }

  lemma BulkReplyParts(w: string)
    ensures BulkReply(w) == ['$'] + NatToDecimal(|w|) + Crlf + w + Crlf
    ensures |BulkReply(w)| == |NatToDecimal(|w|)| + |w| + 5
  {
  }

  /** The parts of marker + d + CRLF + w + CRLF found at `pos`. */
  lemma LineLayout(buf: string, pos: nat, marker: char, d: string, w: string, x: string)
    requires x == [marker] + d + Crlf + w + Crlf
    requires pos + |x| <= |buf| && buf[pos..pos + |x|] == x
    ensures var e := pos + 1 + |d|;
      && e + 2 + |w| + 2 == pos + |x|
      && buf[pos] == marker
      && buf[pos + 1..e] == d
      && IsCrlfAt(buf, e)
      && buf[e + 2..e + 2 + |w|] == w
      && IsCrlfAt(buf, e + 2 + |w|)
  {
    var x3 := [marker] + d;
    var x2 := x3 + Crlf;
    var x1 := x2 + w;
    SplitSlice(buf, pos, x1, Crlf);
    SplitSlice(buf, pos, x2, w);
    SplitSlice(buf, pos, x3, Crlf);
    SplitSlice(buf, pos, [marker], d);
    CrlfSlice(buf, pos + |x1|);
    CrlfSlice(buf, pos + |x3|);
    assert buf[pos] == buf[pos..pos + 1][0];
  }

  lemma CrlfSlice(buf: string, i: nat)
    requires i + 2 <= |buf| && buf[i..i + 2] == Crlf
    ensures IsCrlfAt(buf, i)
  {
    assert buf[i] == buf[i..i + 2][0] && buf[i + 1] == buf[i..i + 2][1];
  }

  lemma SplitSlice(buf: string, pos: nat, x: string, y: string)
    requires pos + |x + y| <= |buf| && buf[pos..pos + |x + y|] == x + y
    ensures buf[pos..pos + |x|] == x
    ensures buf[pos + |x|..pos + |x| + |y|] == y
  {
    assert buf[pos..pos + |x|] == (x + y)[..|x|];
    assert buf[pos + |x|..pos + |x| + |y|] == (x + y)[|x|..];
  }

  /** An encoded bulk string at `cursor` is read back as one element viewing exactly its data. */
  lemma ParseElementOfBulk(buf: string, cursor: nat, w: string)
    requires |w| <= LongLongMax
    requires cursor + |BulkReply(w)| <= |buf| && buf[cursor..cursor + |BulkReply(w)|] == BulkReply(w)
    ensures var el := ParseElement(buf, cursor);
      el.Element? && el.next == cursor + |BulkReply(w)| && View(buf, el.slice) == w
  {
    BulkLayout(buf, cursor, w);
    var d := NatToDecimal(|w|);
    var e := cursor + 1 + |d|;
    DecimalLineEnd(buf, cursor + 1, d);
    assert FromChars(buf[cursor + 1..e]) == Some(|w|) by {
      FromCharsInvertsIntToDecimal(|w|);
    }
  }

  /** The first terminator after decimal digits placed at `from` and followed by CRLF is the one right after them. */
  lemma DecimalLineEnd(buf: string, from: nat, d: string)
    requires from + |d| <= |buf| && buf[from..from + |d|] == d && IsCrlfAt(buf, from + |d|)
    requires exists n: nat :: d == NatToDecimal(n)
    ensures FindTerminator(buf, from) == Some(from + |d|)
  {
    var n: nat :| d == NatToDecimal(n);
    NatToDecimalMeaning(n);
    forall j | from <= j < from + |d| ensures buf[j] != '\r' {
      assert buf[j] == d[j - from];
    }
    FindTerminatorAfterPlainText(buf, from, from + |d|);
  }

  /** The encoded strings `vs` sit one after another from `cursor` on. */
  predicate BulksAt(buf: string, cursor: nat, vs: seq<string>)
    decreases |vs|
  {
    vs == [] ||
      var next := cursor + |BulkReply(vs[0])|;
      next <= |buf| && buf[cursor..next] == BulkReply(vs[0]) && BulksAt(buf, next, vs[1..])
  }

  lemma {:induction false} BulksAtOfSlice(buf: string, cursor: nat, vs: seq<string>)
    requires cursor + |Bulks(vs)| <= |buf| && buf[cursor..cursor + |Bulks(vs)|] == Bulks(vs)
    ensures BulksAt(buf, cursor, vs)
    decreases |vs|
  {
    if vs != [] {
      assert Bulks(vs) == BulkReply(vs[0]) + Bulks(vs[1..]);
      SplitSlice(buf, cursor, BulkReply(vs[0]), Bulks(vs[1..]));
      BulksAtOfSlice(buf, cursor + |BulkReply(vs[0])|, vs[1..]);
    }
  }

  /** Each of `vs` in turn parses as one element from `cursor` on, viewing exactly that string. */
  predicate ElementsAt(buf: string, cursor: nat, vs: seq<string>)
    decreases |vs|
  {
    vs == [] ||
      var el := ParseElement(buf, cursor);
      el.Element? && el.next == cursor + |BulkReply(vs[0])| && View(buf, el.slice) == vs[0]
        && ElementsAt(buf, el.next, vs[1..])
  }

  lemma {:induction false} BulksAreElements(buf: string, cursor: nat, vs: seq<string>)
    requires cursor <= |buf| && BulksAt(buf, cursor, vs)
    requires forall i :: 0 <= i < |vs| ==> |vs[i]| <= LongLongMax
    ensures ElementsAt(buf, cursor, vs)
    decreases |vs|
  {
    if vs != [] {
      ParseElementOfBulk(buf, cursor, vs[0]);
      assert forall i :: 0 <= i < |vs| - 1 ==> vs[1..][i] == vs[i + 1];
      BulksAreElements(buf, cursor + |BulkReply(vs[0])|, vs[1..]);
    }
  }

  lemma {:induction false} ParseElementsOfBulks(buf: string, cursor: nat, vs: seq<string>)
    requires cursor <= |buf| && ElementsAt(buf, cursor, vs)
    ensures var r := ParseElements(buf, cursor, |vs|);
      && r.Complete?
      && r.consumed == cursor + |Bulks(vs)|
      && Views(buf, r.args) == vs
    decreases |vs|
  {
    if vs != [] {
      var el := ParseElement(buf, cursor);
      ParseElementsStep(buf, cursor, |vs|);
      ParseElementsOfBulks(buf, el.next, vs[1..]);
      BulksCombine(buf, cursor, vs, el.slice, el.next, ParseElements(buf, el.next, |vs| - 1));
    }
  }

  lemma BulksCombine(buf: string, cursor: nat, vs: seq<string>, s: Slice, next: nat, r: ParseResult)
    requires vs != [] && View(buf, s) == vs[0] && next == cursor + |BulkReply(vs[0])|
    requires r.Complete? && r.consumed == next + |Bulks(vs[1..])| && Views(buf, r.args) == vs[1..]
    ensures var p := Prepend([s], r);
      p.Complete? && p.consumed == cursor + |Bulks(vs)| && Views(buf, p.args) == vs
  {
    ViewsOfCons(buf, s, r.args, vs[0], vs[1..]);
    HeadTail(vs);
  }

  /** One step of the element loop: a parsed element is prepended to what the rest of the loop yields. */
  lemma ParseElementsStep(buf: string, cursor: nat, remaining: nat)
    requires cursor <= |buf| && remaining > 0 && ParseElement(buf, cursor).Element?
    ensures var el := ParseElement(buf, cursor);
      ParseElements(buf, cursor, remaining) == Prepend([el.slice], ParseElements(buf, el.next, remaining - 1))
  {
  }

  /** The first of a run of bulk strings parses as one element, and the rest of the run follows it. */
  lemma ViewsOfCons(buf: string, s: Slice, t: seq<Slice>, w: string, ws: seq<string>)
    requires View(buf, s) == w && Views(buf, t) == ws
    ensures Views(buf, [s] + t) == [w] + ws
  {
    ViewsCons(buf, s, t);
  }

  lemma HeadTail<T>(s: seq<T>)
    requires s != []
    ensures [s[0]] + s[1..] == s
  {
  }

  lemma ViewsCons(buf: string, s: Slice, t: seq<Slice>)
    ensures Views(buf, [s] + t) == [View(buf, s)] + Views(buf, t)
  {
    assert forall i :: 0 <= i < |t| ==> ([s] + t)[i + 1] == t[i];
  }

  /** The header of an encoded frame reads back as its count. */
  lemma FrameHeader(vs: seq<string>, rest: string)
    requires |vs| <= LongLongMax
    ensures ParseHeader(Frame(vs) + rest) == Header(|vs|, |ArrayHeader(|vs|)|)
  {
    var buf := Frame(vs) + rest;
    var h := ArrayHeader(|vs|);
    var dn := NatToDecimal(|vs|);
    NatToDecimalMeaning(|vs|);
    var e := 1 + |dn|;
    assert h == ['*'] + dn + Crlf;
    assert buf == h + (Bulks(vs) + rest);
    assert forall j :: 0 <= j < |h| ==> buf[j] == h[j];
    assert buf[1..e] == dn;
    forall j | 1 <= j < e ensures buf[j] != '\r' {
      assert buf[j] == dn[j - 1];
    }
    FindTerminatorAfterPlainText(buf, 1, e);
    FromCharsInvertsIntToDecimal(|vs|);
  }

  /** append_array_header(n) followed by n append_string calls yields bytes that parse back to the same n strings, whatever follows them. */
  lemma FrameRoundTrip(vs: seq<string>, rest: string)
    requires |vs| <= LongLongMax && forall i :: 0 <= i < |vs| ==> |vs[i]| <= LongLongMax
    ensures var buf := Frame(vs) + rest; var r := ParseFrame(buf);
      r.Complete? && r.consumed == |Frame(vs)| && Views(buf, r.args) == vs
  {
    var buf := Frame(vs) + rest;
    var h := |ArrayHeader(|vs|)|;
    FrameHeader(vs, rest);
    assert buf == ArrayHeader(|vs|) + Bulks(vs) + rest;
    assert buf[h..h + |Bulks(vs)|] == Bulks(vs);
    BulksAtOfSlice(buf, h, vs);
    BulksAreElements(buf, h, vs);
    ParseElementsOfBulks(buf, h, vs);
  }

  /** Every proper prefix of such a frame is incomplete, never an error. */
  lemma ProperPrefixOfFrameIsIncomplete(vs: seq<string>, k: nat)
    requires |vs| <= LongLongMax && forall i :: 0 <= i < |vs| ==> |vs[i]| <= LongLongMax
    requires k < |Frame(vs)|
    ensures ParseFrame(Frame(vs)[..k]) == Incomplete
  {
    FrameRoundTrip(vs, []);
    assert Frame(vs) + [] == Frame(vs);
    ParseFramePrefix(Frame(vs), k);
  }

  /** A null array ("*-1") is not a request: its count is negative. */
  lemma NullArrayIsNoRequest()
    ensures ParseFrame(NullArray) == Malformed
  {
    FindTerminatorAfterPlainText(NullArray, 1, 3);
    assert NullArray[1..3] == "-1";
    FromCharsMeaning("-1");
    assert "-1"[1..] == "1";
    assert DigitsValue("1") == 1 by { assert "1"[..0] == []; }
  }

  // ----- draining a stream: the parse / consume loop -----

  /** What the parse-consume loop extracts from a buffer: the commands in order, the bytes left, and whether it stopped on a protocol error. */
  datatype Drained = Drained(commands: seq<seq<string>>, rest: string, malformed: bool)

  function Drain(buf: string): Drained
    decreases |buf|
  {
    match ParseFrame(buf)
    case Complete(args, consumed) =>
      var more := Drain(buf[consumed..]);
      Drained([Views(buf, args)] + more.commands, more.rest, more.malformed)
    case Incomplete => Drained([], buf, false)
    case Malformed => Drained([], buf, true)
  }

  /** Draining past a complete command leaves what draining the bytes after it leaves. */
  lemma DrainStep(buf: string)
    requires ParseFrame(buf).Complete?
    ensures var more := Drain(buf[ParseFrame(buf).consumed..]);
      Drain(buf).rest == more.rest && Drain(buf).malformed == more.malformed
  {
  }

  /** `s` is what is left at the end of `buf`. */
  predicate IsSuffix(s: string, buf: string) {
    |s| <= |buf| && s == buf[|buf| - |s|..]
  }

  lemma SuffixOfDrop(s: string, buf: string, k: nat)
    requires k <= |buf| && IsSuffix(s, buf[k..])
    ensures IsSuffix(s, buf)
  {
    assert buf[k..][|buf| - k - |s|..] == buf[|buf| - |s|..];
  }

  /** What draining leaves is a suffix of the buffer. */
  lemma {:induction false} DrainRestIsSuffix(buf: string)
    ensures IsSuffix(Drain(buf).rest, buf)
    decreases |buf|
  {
    if ParseFrame(buf).Complete? {
      var k := ParseFrame(buf).consumed;
      DrainRestIsSuffix(buf[k..]);
      DrainStep(buf);
      SuffixOfDrop(Drain(buf).rest, buf, k);
    } else {
      assert Drain(buf).rest == buf[|buf| - |buf|..];
    }
  }

  /** Draining stops on bytes that hold no complete command: they are either malformed or await more bytes. */
  lemma {:induction false} DrainStopsAtIncompleteOrMalformed(buf: string)
    ensures var d := Drain(buf);
      && (d.malformed <==> ParseFrame(d.rest).Malformed?)
      && (!d.malformed ==> ParseFrame(d.rest).Incomplete?)
    decreases |buf|
  {
    var r := ParseFrame(buf);
    if r.Complete? {
      DrainStopsAtIncompleteOrMalformed(buf[r.consumed..]);
      DrainStep(buf);
    }
  }

  lemma ConsAppend<T>(x: T, p: seq<T>, q: seq<T>)
    ensures [x] + (p + q) == [x] + p + q
  {
  }

  lemma PrependAppend(views: seq<Slice>, s: Slice, r: ParseResult)
    ensures Prepend(views, Prepend([s], r)) == Prepend(views + [s], r)
  {
    if r.Complete? {
      AppendAssoc(views, [s], r.args);
    }
  }

  lemma AppendAssoc<T>(p: seq<T>, q: seq<T>, r: seq<T>)
    ensures p + (q + r) == p + q + r
  {
  }

  lemma ViewsExtend(buf: string, more: string, args: seq<Slice>)
    requires forall i :: 0 <= i < |args| ==> args[i].off + args[i].len <= |buf|
    ensures Views(buf + more, args) == Views(buf, args)
  {
    forall i | 0 <= i < |args| ensures View(buf + more, args[i]) == View(buf, args[i]) {
      assert (buf + more)[args[i].off..args[i].off + args[i].len] == buf[args[i].off..args[i].off + args[i].len];
    }
  }

  /**
   * Fragmentation invariance: draining a + b at once gives the commands of
   * draining a, followed by those of draining what a left over with b added.
   */
  lemma {:induction false} DrainSplit(a: string, b: string)
    ensures var da := Drain(a); var db := Drain(da.rest + b);
      Drain(a + b) == Drained(da.commands + db.commands, db.rest, db.malformed)
    decreases |a|
  {
    var r := ParseFrame(a);
    if r.Complete? {
      ParseFrameExtend(a, b);
      ParseFrameWithin(a);
      ViewsExtend(a, b, r.args);
      var c := r.consumed;
      var tail := a[c..];
      assert (a + b)[c..] == tail + b;
      DrainSplit(tail, b);
      var v := Views(a, r.args);
      var dt := Drain(tail);
      var db := Drain(dt.rest + b);
      assert Drain(a + b) == Drained([v] + Drain(tail + b).commands, db.rest, db.malformed);
      assert Drain(a) == Drained([v] + dt.commands, dt.rest, dt.malformed);
      ConsAppend(v, dt.commands, db.commands);
    }
  }

  function Flatten(chunks: seq<string>): string {
    if chunks == [] then [] else chunks[0] + Flatten(chunks[1..])
  }

  /** Feeding chunks one at a time, draining after each arrival. */
  function Feed(pending: string, chunks: seq<string>): Drained
    decreases |chunks|
  {
    if chunks == [] then Drain(pending)
    else
      var d := Drain(pending + chunks[0]);
      var later := Feed(d.rest, chunks[1..]);
      Drained(d.commands + later.commands, later.rest, later.malformed)
  }

  /** However a stream is split into chunks, the commands extracted and the bytes left over are the same as for the whole stream at once. */
  lemma {:induction false} FeedIsChunkingInvariant(pending: string, chunks: seq<string>)
    ensures Feed(pending, chunks) == Drain(pending + Flatten(chunks))
    decreases |chunks|
  {
    if chunks == [] {
      assert pending + [] == pending;
    } else {
      var whole := pending + chunks[0];
      var d := Drain(whole);
      FeedIsChunkingInvariant(d.rest, chunks[1..]);
      DrainSplit(whole, Flatten(chunks[1..]));
      assert Flatten(chunks) == chunks[0] + Flatten(chunks[1..]);
      AppendAssoc(pending, chunks[0], Flatten(chunks[1..]));
    }
  }

  // ----- the stateful parser -----

  class Parser {
    var args: seq<Slice>
    var consumed: nat
    var hasError: bool

    constructor ()
      ensures args == [] && consumed == 0 && !hasError
    {
      args := [];
      consumed := 0;
      hasError := false;
    }

    /**
     * parse: attempts one command at the front of `buffer` (which it only
     * reads). The error flag is sticky: once set, every attempt fails at once.
     */
    method Parse(buffer: string) returns (ok: bool)
      modifies this
      ensures ok <==> !old(hasError) && ParseFrame(buffer).Complete?
      ensures ok ==> args == ParseFrame(buffer).args && consumed == ParseFrame(buffer).consumed
      ensures !ok ==> args == [] && consumed == 0
      ensures hasError <==> old(hasError) || ParseFrame(buffer).Malformed?
    {
      args := [];
      consumed := 0;
      if hasError || |buffer| == 0 {
        return false;
      }
      var cursor: nat := 0;
      if buffer[cursor] != '*' {
        hasError := true;
        return false;
      }
      cursor := cursor + 1;
      var arrayLineEnd := FindTerminator(buffer, cursor);
      if arrayLineEnd.None? {
        return false;
      }
      var arrayLen := FromChars(buffer[cursor..arrayLineEnd.value]);
      if arrayLen.None? || arrayLen.value < 0 {
        hasError := true;
        return false;
      }
      cursor := arrayLineEnd.value + 2;
      assert ParseHeader(buffer) == Header(arrayLen.value, cursor);
      for i := 0 to arrayLen.value
        invariant cursor <= |buffer| && |args| == i
        invariant Prepend(args, ParseElements(buffer, cursor, arrayLen.value - i)) == ParseFrame(buffer)
        invariant consumed == 0 && !hasError
      {
        var el := ReadElement(buffer, cursor);
        if el.ElementIncomplete? {
          args := [];
          return false;
        }
        if el.ElementMalformed? {
          hasError := true;
          args := [];
          return false;
        }
        PrependAppend(args, el.slice, ParseElements(buffer, el.next, arrayLen.value - i - 1));
        args := args + [el.slice];
        cursor := el.next;
      }
      consumed := cursor;
      ok := true;
    }

    /** The body of parse's element loop: reads "$<len>\r\n<len bytes>\r\n" at `cursor`. */
    static method ReadElement(buffer: string, cursor: nat) returns (el: Element)
      ensures el == ParseElement(buffer, cursor)
    {
      if cursor >= |buffer| {
        return ElementIncomplete;
      }
      if buffer[cursor] != '$' {
        return ElementMalformed;
      }
      var pos := cursor + 1;
      var bulkLineEnd := FindTerminator(buffer, pos);
      if bulkLineEnd.None? {
        return ElementIncomplete;
      }
      var bulkLen := FromChars(buffer[pos..bulkLineEnd.value]);
      if bulkLen.None? || bulkLen.value < 0 {
        return ElementMalformed;
      }
      pos := bulkLineEnd.value + 2;
      var need := bulkLen.value + 2;
      if pos + need > |buffer| {
        return ElementIncomplete;
      }
      var slice := Slice(pos, bulkLen.value);
      pos := pos + bulkLen.value;
      if buffer[pos] != '\r' || buffer[pos + 1] != '\n' {
        return ElementMalformed;
      }
      el := Element(slice, pos + 2);
    }

    /** consume: drops the bytes of the last parsed command; a no-op when none are recorded or they exceed the buffer. */
    method Consume(buffer: string) returns (rest: string)
      modifies this`consumed
      ensures old(consumed) == 0 || old(consumed) > |buffer| ==> rest == buffer && consumed == old(consumed)
      ensures 0 < old(consumed) <= |buffer| ==> rest == buffer[old(consumed)..] && consumed == 0
    {
      if consumed == 0 || consumed > |buffer| {
        return buffer;
      }
      rest := buffer[consumed..];
      consumed := 0;
    }

    method Reset()
      modifies this
      ensures args == [] && consumed == 0 && !hasError
    {
      args := [];
      consumed := 0;
      hasError := false;
    }
  }
}
