/**
 * The reply serialisers of the protocol layer. Each one appends one encoded
 * reply to an output buffer; the buffer is passed in and the grown buffer is
 * returned, so every method promises `res == out + <wire form>`: the old
 * contents are a prefix of the new, nothing is overwritten.
 */
module Resp {
  import opened Wrappers
  import opened Decimal

  const Crlf: string := "\r\n"
  const Success: string := "+OK\r\n"
  const NullString: string := "$-1\r\n"
  const NullArray: string := "*-1\r\n"

  /** Wire form of a status reply: '+', the text, CRLF. */
  function StatusReply(msg: string): string {
    "+" + msg + Crlf
  }

  /** Wire form of a bulk string: '$', the decimal length, CRLF, the bytes, CRLF. */
  function BulkReply(value: string): string {
    "$" + NatToDecimal(|value|) + Crlf + value + Crlf
  }

  /** A present value is a bulk string, an absent one the null bulk string. */
  function OptionalBulkReply(value: Option<string>): string {
    match value
    case Some(v) => BulkReply(v)
    case None => NullString
  }

  /** Wire form of an error reply; the "ERR " prefix is always added. */
  function ErrorReply(msg: string): string {
    "-ERR " + msg + Crlf
  }

  /** Wire form of an integer reply: ':', the signed decimal value, CRLF. */
  function IntegerReply(x: int): string {
    ":" + IntToDecimal(x) + Crlf
  }

  /** Wire form of an array header: '*', the decimal element count, CRLF. */
  function ArrayHeader(count: nat): string {
    "*" + NatToDecimal(count) + Crlf
  }

  method AppendStatusString(out: string, msg: string) returns (res: string)
    ensures res == out + StatusReply(msg)
  {
    res := out + ['+'];
    res := res + msg;
    res := res + Crlf;
  }

  method AppendString(out: string, value: string) returns (res: string)
    ensures res == out + BulkReply(value)
  {
    var len := NatToDecimal(|value|);
    res := out + ['$'];
    res := res + len;
    res := res + Crlf;
    res := res + value;
    res := res + Crlf;
  }

  /** The overload taking an optional value. */
  method AppendOptionalString(out: string, value: Option<string>) returns (res: string)
    ensures res == out + OptionalBulkReply(value)
  {
    if value.Some? {
      res := AppendString(out, value.value);
    } else {
      res := out + NullString;
    }
  }

  method AppendOk(out: string) returns (res: string)
    ensures res == out + StatusReply("OK")
  {
    res := out + Success;
  }

  method AppendError(out: string, msg: string) returns (res: string)
    ensures res == out + ErrorReply(msg)
  {
    res := out + "-ERR ";
    res := res + msg;
    res := res + Crlf;
  }

  method AppendInteger(out: string, value: int) returns (res: string)
    ensures res == out + IntegerReply(value)
  {
    res := out + [':'];
    res := res + IntToDecimal(value);
    res := res + Crlf;
  }

  method AppendNullString(out: string) returns (res: string)
    ensures res == out + OptionalBulkReply(None)
  {
    res := out + NullString;
  }

  method AppendArrayHeader(out: string, count: nat) returns (res: string)
    ensures res == out + ArrayHeader(count)
  {
    res := out + ['*'];
    res := res + NatToDecimal(count);
    res := res + Crlf;
  }

  method AppendNullArray(out: string) returns (res: string)
    ensures res == out + NullArray
  {
    res := out + NullArray;
  }

  /** The null bulk string cannot be mistaken for any bulk string: a bulk length is never signed. */
  lemma NullStringIsNoBulkString(value: string)
    ensures BulkReply(value) != NullString
  {
    assert BulkReply(value)[1] == NatToDecimal(|value|)[0];
  }

  /** An integer reply carries its value: the text between ':' and CRLF reads back through from_chars. */
  lemma {:induction false} IntegerReplyCarriesValue(x: int)
    requires InLongLong(x)
    ensures var r := IntegerReply(x);
      |r| >= 4 && r[0] == ':' && r[|r| - 2..] == Crlf && FromChars(r[1..|r| - 2]) == Some(x)
  {
    var r := IntegerReply(x);
    assert r[1..|r| - 2] == IntToDecimal(x);
    FromCharsInvertsIntToDecimal(x);
  }

  // ----- a reply as a value -----

  /** The replies the command layer sends, one encoder each. */
  datatype Reply = Status(text: string) | Bulk(value: Option<string>) | Error(message: string) | Integer(number: int)

  function Encode(r: Reply): string {
    match r
    case Status(t) => StatusReply(t)
    case Bulk(v) => OptionalBulkReply(v)
    case Error(m) => ErrorReply(m)
    case Integer(x) => IntegerReply(x)
  }

  /** Every encoding starts with the marker byte of its kind and ends with CRLF. */
  lemma EncodeFraming(r: Reply)
    ensures var e := Encode(r);
      && |e| >= 3 && e[|e| - 2..] == Crlf
      && e[0] == match r
                 case Status(_) => '+'
                 case Bulk(_) => '$'
                 case Error(_) => '-'
                 case Integer(_) => ':'
  {
  }

  /** In digits followed by CRLF, the first carriage return is the one after the digits. */
  lemma FirstCarriageReturn(d: string, rest: string)
    requires AllDigits(d)
    ensures var a := d + Crlf + rest; a[|d|] == '\r' && forall k :: 0 <= k < |d| ==> a[k] != '\r'
  {
    var a := d + Crlf + rest;
    forall k | 0 <= k < |d|
      ensures a[k] != '\r'
    {
      assert a[k] == d[k];
    }
  }

  lemma DecimalPrefixes(d1: string, d2: string, rest1: string, rest2: string)
    requires AllDigits(d1) && AllDigits(d2)
    requires d1 + Crlf + rest1 == d2 + Crlf + rest2
    ensures d1 == d2 && rest1 == rest2
  {
    var a := d1 + Crlf + rest1;
    var b := d2 + Crlf + rest2;
    FirstCarriageReturn(d1, rest1);
    FirstCarriageReturn(d2, rest2);
    assert |d1| == |d2|;
    assert d1 == a[..|d1|] && d2 == b[..|d2|];
    assert rest1 == a[|d1| + 2..] && rest2 == b[|d2| + 2..];
  }

  lemma LineTextInjective(marker: string, t1: string, t2: string)
    requires marker + t1 + Crlf == marker + t2 + Crlf
    ensures t1 == t2
  {
    var e := marker + t1 + Crlf;
    assert t1 == e[|marker|..|e| - 2];
    assert t2 == (marker + t2 + Crlf)[|marker|..|e| - 2];
  }

  /** What follows a bulk string's '$'. */
  lemma BulkReplyTail(w: string)
    ensures BulkReply(w)[1..] == NatToDecimal(|w|) + Crlf + (w + Crlf)
  {
    Regroup("$", NatToDecimal(|w|), Crlf, w, Crlf);
  }

  lemma Regroup<T>(x: seq<T>, a: seq<T>, b: seq<T>, c: seq<T>, e: seq<T>)
    ensures (x + a + b + c + e)[|x|..] == a + b + (c + e)
  {
    assert x + a + b + c + e == x + (a + b + (c + e));
  }

  /** The length header fixes where a bulk string's payload ends. */
  lemma BulkStringInjective(w1: string, w2: string)
    requires BulkReply(w1) == BulkReply(w2)
    ensures w1 == w2
  {
    NatToDecimalDigits(|w1|);
    NatToDecimalDigits(|w2|);
    BulkReplyTail(w1);
    BulkReplyTail(w2);
    DecimalPrefixes(NatToDecimal(|w1|), NatToDecimal(|w2|), w1 + Crlf, w2 + Crlf);
    assert w1 == (w1 + Crlf)[..|w1|];
    assert w2 == (w2 + Crlf)[..|w2|];
  }

  lemma BulkInjective(v1: Option<string>, v2: Option<string>)
    requires OptionalBulkReply(v1) == OptionalBulkReply(v2)
    ensures v1 == v2
  {
    if v1.Some? && v2.Some? {
      BulkStringInjective(v1.value, v2.value);
    } else if v1.Some? {
      NullStringIsNoBulkString(v1.value);
    } else if v2.Some? {
      NullStringIsNoBulkString(v2.value);
    }
  }

  lemma IntegerInjective(x1: int, x2: int)
    requires IntegerReply(x1) == IntegerReply(x2)
    ensures x1 == x2
  {
    LineTextInjective(":", IntToDecimal(x1), IntToDecimal(x2));
    IntToDecimalMeaning(x1);
    IntToDecimalMeaning(x2);
  }

  /** Different replies never share an encoding, so the reply a client reads back is the one that was sent. */
  lemma EncodeIsInjective(r1: Reply, r2: Reply)
    requires Encode(r1) == Encode(r2)
    ensures r1 == r2
  {
    EncodeFraming(r1);
    EncodeFraming(r2);
    match r1
    case Status(t1) => LineTextInjective("+", t1, r2.text);
    case Error(m1) => LineTextInjective("-ERR ", m1, r2.message);
    case Integer(x1) => IntegerInjective(x1, r2.number);
    case Bulk(v1) => BulkInjective(v1, r2.value);
  }
}
