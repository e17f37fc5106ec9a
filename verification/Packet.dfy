/** Length-prefixed packets: an operation code, the size of the body, and in the body
    each item preceded by its length.  Sending and receiving are exact inverses. */
module Packet {
  import opened Bytes

  const INT_MAX := 0x8000_0000

  /** sizeof(int) bytes, least significant first, two's complement. */
  function EncodeInt(n: int): (b: seq<byte>)
    requires -INT_MAX <= n < INT_MAX
    ensures |b| == 4
  {
    var u := if n < 0 then n + 0x1_0000_0000 else n;
    [(u % 0x100) as byte, (u / 0x100 % 0x100) as byte, (u / 0x100 / 0x100 % 0x100) as byte,
     (u / 0x100 / 0x100 / 0x100) as byte]
  }

  function DecodeInt(b: seq<byte>): (n: int)
    requires |b| == 4
    ensures -INT_MAX <= n < INT_MAX
  {
    var u := b[0] as int + 0x100 * b[1] as int + 0x1_0000 * b[2] as int + 0x100_0000 * b[3] as int;
    if u < INT_MAX then u else u - 0x1_0000_0000
  }

  lemma SplitLowByte(q: int, r: int)
    requires 0 <= r < 0x100
    ensures (0x100 * q + r) / 0x100 == q && (0x100 * q + r) % 0x100 == r
  {
  }

  lemma EncodeDecode(b: seq<byte>)
    requires |b| == 4
    ensures EncodeInt(DecodeInt(b)) == b
  {
    var b0, b1, b2, b3 := b[0] as int, b[1] as int, b[2] as int, b[3] as int;
    SplitLowByte(b1 + 0x100 * (b2 + 0x100 * b3), b0);
    SplitLowByte(b2 + 0x100 * b3, b1);
    SplitLowByte(b3, b2);
    assert EncodeInt(DecodeInt(b)) == [b[0], b[1], b[2], b[3]];
  }

  lemma DecodeEncode(n: int)
    requires -INT_MAX <= n < INT_MAX
    ensures DecodeInt(EncodeInt(n)) == n
  {
    var u := if n < 0 then n + 0x1_0000_0000 else n;
    var q := u / 0x100;
    assert u == 0x100 * q + u % 0x100 && q == 0x100 * (q / 0x100) + q % 0x100;
    assert q / 0x100 == 0x100 * (q / 0x100 / 0x100) + q / 0x100 % 0x100;
  }

  lemma IntRoundTrip(n: int, b: seq<byte>)
    requires |b| == 4
    ensures -INT_MAX <= n < INT_MAX ==> DecodeInt(EncodeInt(n)) == n
    ensures EncodeInt(DecodeInt(b)) == b
  {
    EncodeDecode(b);
    if -INT_MAX <= n < INT_MAX { DecodeEncode(n); }
  }

  type Item = seq<byte>

  /** The body of a packet. */
  function Body(items: seq<Item>): seq<byte>
    requires forall x :: x in items ==> |x| < INT_MAX
  {
    if items == [] then []
    else Body(items[..|items| - 1]) + EncodeInt(|items[|items| - 1]|) + items[|items| - 1]
  }

  ghost predicate Sendable(opcode: int, items: seq<Item>) {
    && -INT_MAX <= opcode < INT_MAX && (forall x :: x in items ==> |x| < INT_MAX)
    && |Body(items)| + 8 < INT_MAX
  }

  function Wire(opcode: int, items: seq<Item>): seq<byte>
    requires Sendable(opcode, items)
  {
    EncodeInt(opcode) + EncodeInt(|Body(items)|) + Body(items)
  }

  // ------------------------------------------------------------------ receiving

  /** What recibir_paquete yields.  `Closed` and `Broken` are its NULL results; in the
      `Undefined` cases the code goes on with bytes it never received. */
  datatype Received = Closed | Broken | Undefined | Message(opcode: int, items: seq<Item>)

  datatype Parsed = BadItem | Items(items: seq<Item>)

  /** The items found in `body` from position `d` on. */
  function Parse(body: seq<byte>, d: nat): Parsed
    requires d <= |body|
    decreases |body| - d
  {
    if d == |body| then Items([])
    else if d + 4 > |body| then BadItem else
    var n := DecodeInt(body[d..d + 4]);
    if n < 0 || d + 4 + n > |body| then BadItem else
    match Parse(body, d + 4 + n)
    case BadItem => BadItem
    case Items(rest) => Items([body[d + 4..d + 4 + n]] + rest)
  }

  /** One packet taken from the front of `input`, and what is left of it. */
  function Receive(input: seq<byte>): (Received, seq<byte>) {
    if input == [] then (Closed, [])
    else if |input| < 4 then (Undefined, [])
    else if |input| == 4 then (Broken, [])
    else if |input| < 8 then (Undefined, [])
    else
      var opcode := DecodeInt(input[..4]);
      var size := DecodeInt(input[4..8]);
      var rest := input[8..];
      if size < 0 then (Broken, rest)
      else if |rest| < size then (Broken, [])
      else match Parse(rest[..size], 0)
        case BadItem => (Undefined, rest[size..])
        case Items(items) => (Message(opcode, items), rest[size..])
  }

  // ---------------------------------------------------------- exact inverse

  /** The body written from the first item on. */
  function Front(items: seq<Item>): (b: seq<byte>)
    requires forall x :: x in items ==> |x| < INT_MAX
    ensures items != [] ==> |b| >= 4
  {
    if items == [] then [] else EncodeInt(|items[0]|) + items[0] + Front(items[1..])
  }

  lemma SlicesOfRest(body: seq<byte>, d: nat, n: nat)
    requires d + 4 + n <= |body|
    ensures body[d..][..4] == body[d..d + 4] && body[d..][4..4 + n] == body[d + 4..d + 4 + n]
    ensures body[d..][4 + n..] == body[d + 4 + n..]
  {
  }

  lemma FirstItem(b: seq<byte>, x: Item, more: seq<byte>)
    requires |x| < INT_MAX && b == EncodeInt(|x|) + x + more
    ensures |b| == 4 + |x| + |more| && DecodeInt(b[..4]) == |x| && b[4..4 + |x|] == x && b[4 + |x|..] == more
  {
    assert b[..4] == EncodeInt(|x|);
    IntRoundTrip(|x|, EncodeInt(|x|));
  }

  lemma {:induction false} ParseStops(body: seq<byte>, d: nat, tail: seq<Item>)
    requires d <= |body| && (forall x :: x in tail ==> |x| < INT_MAX) && body[d..] == Front(tail)
    ensures Parse(body, d) == Items(tail)
    decreases |tail|
  {
    if tail != [] {
      var n := |tail[0]|;
      FirstItem(body[d..], tail[0], Front(tail[1..]));
      SlicesOfRest(body, d, n);
      ParseStops(body, d + 4 + n, tail[1..]);
      assert Parse(body, d) == Items([tail[0]] + tail[1..]);
    }
  }

  lemma {:induction false} FrontAppend(items: seq<Item>, x: Item)
    requires (forall y :: y in items ==> |y| < INT_MAX) && |x| < INT_MAX
    ensures forall y :: y in items + [x] ==> |y| < INT_MAX
    ensures Front(items + [x]) == Front(items) + EncodeInt(|x|) + x
  {
    if items == [] {
      assert [] + [x] == [x] && [x][1..] == [];
    } else {
      var first := EncodeInt(|items[0]|) + items[0];
      assert (items + [x])[1..] == items[1..] + [x];
      FrontAppend(items[1..], x);
      assert first + (Front(items[1..]) + EncodeInt(|x|) + x) == first + Front(items[1..]) + EncodeInt(|x|) + x;
    }
  }

  lemma {:induction false} BodyIsFront(items: seq<Item>)
    requires forall x :: x in items ==> |x| < INT_MAX
    ensures Body(items) == Front(items)
  {
    if items != [] {
      var before := items[..|items| - 1];
      BodyIsFront(before);
      FrontAppend(before, items[|items| - 1]);
      assert items == before + [items[|items| - 1]];
    }
  }

  /** Receiving what was sent gives the operation code and the items back, and takes
      exactly that packet's bytes. */
  lemma RoundTrip(opcode: int, items: seq<Item>, more: seq<byte>)
    requires Sendable(opcode, items)
    ensures Receive(Wire(opcode, items) + more) == (Message(opcode, items), more)
  {
    var input := Wire(opcode, items) + more;
    var body := Body(items);
    assert input[..4] == EncodeInt(opcode) && input[4..8] == EncodeInt(|body|) && input[8..] == body + more;
    IntRoundTrip(opcode, EncodeInt(opcode));
    IntRoundTrip(|body|, EncodeInt(|body|));
    assert (body + more)[..|body|] == body && (body + more)[|body|..] == more;
    BodyIsFront(items);
    assert body[0..] == body;
    ParseStops(body, 0, items);
  }

  // ---------------------------------------------------------- bytes on the wire

  /** Four bytes that hold n, the least significant first, modulo 2^32. */
  predicate IsInt(b: seq<byte>, n: int) {
    |b| == 4 && b[0] as int + 0x100 * b[1] as int + 0x1_0000 * b[2] as int + 0x100_0000 * b[3] as int
      == if n < 0 then n + 0x1_0000_0000 else n
  }

  lemma EncodedIsInt(n: int)
    requires -INT_MAX <= n < INT_MAX
    ensures IsInt(EncodeInt(n), n)
  {
    DecodeEncode(n);
  }

  /** Where the length of item k stands: the header has 8 bytes, each item 4 and its own. */
  function ItemAt(items: seq<Item>, k: nat): nat
    requires k <= |items|
  {
    if k == 0 then 8 else ItemAt(items, k - 1) + 4 + |items[k - 1]|
  }

  lemma {:induction false} ItemAtOfFirst(items: seq<Item>, n: nat, k: nat)
    requires k <= n <= |items|
    ensures ItemAt(items[..n], k) == ItemAt(items, k) >= 8
    ensures k < n ==> ItemAt(items, k) + 4 + |items[k]| <= ItemAt(items, n)
  {
    if k > 0 { ItemAtOfFirst(items, n, k - 1); }
    if k < n - 1 { ItemAtOfFirst(items, n - 1, k); }
  }

  lemma BodyOfMore(items: seq<Item>, x: Item)
    requires (forall y :: y in items ==> |y| < INT_MAX) && |x| < INT_MAX
    ensures forall y :: y in items + [x] ==> |y| < INT_MAX
    ensures Body(items + [x]) == Body(items) + EncodeInt(|x|) + x
  {
    assert (items + [x])[..|items|] == items;
  }

  lemma {:induction false} BodyLength(items: seq<Item>)
    requires forall x :: x in items ==> |x| < INT_MAX
    ensures |Body(items)| + 8 == ItemAt(items, |items|)
  {
    if items != [] {
      var n := |items| - 1;
      BodyLength(items[..n]);
      ItemAtOfFirst(items, n, n);
    }
  }

  /** Item x, with its length, starts at byte `at`. */
  ghost predicate HasItem(b: seq<byte>, at: int, x: Item)
    requires |x| < INT_MAX
  {
    0 <= at && at + 4 + |x| <= |b| && b[at..at + 4] == EncodeInt(|x|) && b[at + 4..at + 4 + |x|] == x
  }

  lemma HasItemIn(before: seq<byte>, b: seq<byte>, at: int, x: Item)
    requires |x| < INT_MAX && HasItem(b, at, x)
    ensures HasItem(b + before, at, x) && HasItem(before + b, |before| + at, x)
  {
    assert (b + before)[at..at + 4] == b[at..at + 4];
    assert (before + b)[|before| + at..|before| + at + 4] == b[at..at + 4];
  }

  lemma HasItself(x: Item)
    requires |x| < INT_MAX
    ensures HasItem(EncodeInt(|x|) + x, 0, x)
  {
  }

  lemma {:induction false} BodyHasItem(items: seq<Item>, k: nat)
    requires (forall x :: x in items ==> |x| < INT_MAX) && k < |items|
    ensures HasItem(Body(items), ItemAt(items, k) - 8, items[k])
  {
    var last := |items| - 1;
    var before, x := items[..last], items[last];
    assert items == before + [x];
    BodyOfMore(before, x);
    assert Body(items) == Body(before) + (EncodeInt(|x|) + x);
    BodyLength(before);
    ItemAtOfFirst(items, last, last);
    if k < last {
      BodyHasItem(before, k);
      ItemAtOfFirst(items, last, k);
      HasItemIn(EncodeInt(|x|) + x, Body(before), ItemAt(items, k) - 8, items[k]);
    } else {
      HasItself(x);
      HasItemIn(Body(before), EncodeInt(|x|) + x, 0, x);
    }
  }

  lemma WireParts(opcode: int, items: seq<Item>)
    requires Sendable(opcode, items)
    ensures var w, body := Wire(opcode, items), Body(items);
      && w == EncodeInt(opcode) + EncodeInt(|body|) + body && |w| == |body| + 8
      && w[..4] == EncodeInt(opcode) && w[4..8] == EncodeInt(|body|) && w[8..] == body
  {
  }

  /** On the wire come the operation code and the size of what follows, each in four bytes with
      the least significant first. */
  lemma WireHeader(opcode: int, items: seq<Item>)
    requires Sendable(opcode, items)
    ensures var w := Wire(opcode, items);
      |w| == ItemAt(items, |items|) >= 8 && IsInt(w[..4], opcode) && IsInt(w[4..8], |w| - 8)
  {
    WireParts(opcode, items);
    BodyLength(items);
    EncodedIsInt(opcode);
    EncodedIsInt(|Body(items)|);
  }

  lemma WireHasItem(opcode: int, items: seq<Item>, k: nat)
    requires Sendable(opcode, items) && k < |items|
    ensures HasItem(Wire(opcode, items), ItemAt(items, k), items[k])
  {
    var header, at := EncodeInt(opcode) + EncodeInt(|Body(items)|), ItemAt(items, k) - 8;
    assert Wire(opcode, items) == header + Body(items) && |header| + at == ItemAt(items, k);
    BodyHasItem(items, k);
    HasItemIn(header, Body(items), at, items[k]);
  }

  /** Then each item, after its length in four bytes. */
  lemma WireItems(opcode: int, items: seq<Item>, k: nat)
    requires Sendable(opcode, items) && k < |items|
    ensures var w, at, n := Wire(opcode, items), ItemAt(items, k), |items[k]|;
      at + 4 + n <= |w| && IsInt(w[at..at + 4], n) && w[at + 4..at + 4 + n] == items[k]
  {
    WireHasItem(opcode, items, k);
    EncodedIsInt(|items[k]|);
  }

  /** A connection closed within a packet never yields a message: recibir_paquete answers NULL
      when nothing came, when the size or part of the body is missing, and otherwise works on
      bytes it did not get. */
  lemma CutShort(opcode: int, items: seq<Item>, n: nat)
    requires Sendable(opcode, items) && n < |Wire(opcode, items)|
    ensures Receive(Wire(opcode, items)[..n])
      == (if n == 0 then Closed else if n == 4 || n >= 8 then Broken else Undefined, [])
  {
    var w, body := Wire(opcode, items), Body(items);
    WireParts(opcode, items);
    if n >= 8 {
      assert w[..n][4..8] == w[4..8] && |w[..n][8..]| < |body|;
      IntRoundTrip(|body|, EncodeInt(|body|));
    }
  }

  lemma CutItem(body: seq<byte>, d: nat, n: nat)
    requires d + 4 + n <= |body|
    ensures body[d..] == body[d..d + 4] + body[d + 4..d + 4 + n] + body[d + 4 + n..]
  {
  }

  /** What a parse that succeeds has found at d. */
  lemma ParseFinds(body: seq<byte>, d: nat) returns (n: nat)
    requires d < |body| && Parse(body, d).Items?
    ensures d + 4 + n <= |body| && DecodeInt(body[d..d + 4]) == n && Parse(body, d + 4 + n).Items?
    ensures Parse(body, d).items == [body[d + 4..d + 4 + n]] + Parse(body, d + 4 + n).items
  {
    n := DecodeInt(body[d..d + 4]);
  }

  /** Writing one item more in front. */
  lemma FrontOfMore(body: seq<byte>, d: nat, n: nat, items: seq<Item>)
    requires d + 4 + n <= |body| < INT_MAX && DecodeInt(body[d..d + 4]) == n
    requires (forall y :: y in items ==> |y| < INT_MAX) && body[d + 4 + n..] == Front(items)
    ensures var all := [body[d + 4..d + 4 + n]] + items;
      (forall y :: y in all ==> |y| < INT_MAX) && body[d..] == Front(all)
  {
    var x := body[d + 4..d + 4 + n];
    IntRoundTrip(n, body[d..d + 4]);
    assert ([x] + items)[1..] == items;
    CutItem(body, d, n);
  }

  lemma {:induction false} ParseIsFront(body: seq<byte>, d: nat)
    requires d <= |body| < INT_MAX && Parse(body, d).Items?
    ensures (forall x :: x in Parse(body, d).items ==> |x| < INT_MAX) && body[d..] == Front(Parse(body, d).items)
    decreases |body| - d
  {
    if d < |body| {
      var n := ParseFinds(body, d);
      ParseIsFront(body, d + 4 + n);
      FrontOfMore(body, d, n, Parse(body, d + 4 + n).items);
    }
  }

  /** Conversely a message is only ever received from the bytes that sending it puts on
      the wire: no other byte string decodes to it. */
  lemma ReceivedOnlyIfSent(input: seq<byte>)
    requires Receive(input).0.Message?
    ensures var (m, more) := Receive(input);
      && -INT_MAX <= m.opcode < INT_MAX && (forall x :: x in m.items ==> |x| < INT_MAX)
      && |Body(m.items)| < INT_MAX
      && input == EncodeInt(m.opcode) + EncodeInt(|Body(m.items)|) + Body(m.items) + more
  {
    var size := DecodeInt(input[4..8]);
    IntRoundTrip(0, input[..4]);
    IntRoundTrip(0, input[4..8]);
    ParsedIsBody(input[8..][..size]);
    CutPacket(input, size);
  }

  lemma ParsedIsBody(body: seq<byte>)
    requires |body| < INT_MAX && Parse(body, 0).Items?
    ensures (forall x :: x in Parse(body, 0).items ==> |x| < INT_MAX) && Body(Parse(body, 0).items) == body
  {
    ParseIsFront(body, 0);
    assert body[0..] == body;
    BodyIsFront(Parse(body, 0).items);
  }

  lemma CutPacket(input: seq<byte>, n: nat)
    requires |input| >= 8 + n
    ensures input == input[..4] + input[4..8] + input[8..][..n] + input[8..][n..]
  {
  }

  // ------------------------------------------------------------ packet streams

  datatype Sent = Sent(opcode: int, items: seq<Item>)

  function Stream(packets: seq<Sent>): seq<byte>
    requires forall p :: p in packets ==> Sendable(p.opcode, p.items)
  {
    if packets == [] then []
    else Wire(packets[0].opcode, packets[0].items) + Stream(packets[1..])
  }

  /** Packets received one after the other until something other than a message. */
  function ReceiveAll(input: seq<byte>): seq<Sent>
    decreases |input|
  {
    var (m, more) := Receive(input);
    if m.Message? && |more| < |input| then [Sent(m.opcode, m.items)] + ReceiveAll(more) else []
  }

  /** Any concatenation of packets is decoded in order. */
  lemma {:induction false} StreamRoundTrip(packets: seq<Sent>)
    requires forall p :: p in packets ==> Sendable(p.opcode, p.items)
    ensures ReceiveAll(Stream(packets)) == packets
  {
    if packets != [] {
      RoundTrip(packets[0].opcode, packets[0].items, Stream(packets[1..]));
      StreamRoundTrip(packets[1..]);
    }
  }

  // ------------------------------------------------------------ the running code

  /** t_paquete with its growing buffer. */
  class Outgoing {
    const opcode: int
    var size: nat
    var stream: seq<byte>
    ghost var items: seq<Item>

    ghost predicate Valid()
      reads this
    {
      && size == |stream| && (forall x :: x in items ==> |x| < INT_MAX) && stream == Body(items)
      && size + 8 < INT_MAX && -INT_MAX <= opcode < INT_MAX
    }

    constructor (code: int)
      requires -INT_MAX <= code < INT_MAX
      ensures Valid() && opcode == code && items == []
    {
      opcode := code;
      size, stream, items := 0, [], [];
    }

    method Add(item: Item)
      requires Valid() && size + |item| + 12 < INT_MAX
      modifies this
      ensures Valid() && items == old(items) + [item]
    {
      stream := stream + EncodeInt(|item|);
      stream := stream + item;
      size := size + |item| + 4;
      assert (items + [item])[..|items + [item]| - 1] == items;
      items := items + [item];
    }

    /** Opcode, size and body copied at growing offsets into one block of memory. */
    method Serialize() returns (block: array<byte>)
      requires Valid()
      ensures Sendable(opcode, items) && fresh(block) && block[..] == Wire(opcode, items)
    {
      block := new byte[size + 8];
      CopyInto(block, 0, EncodeInt(opcode));
      CopyInto(block, 4, EncodeInt(size));
      assert block[..8] == EncodeInt(opcode) + EncodeInt(size);
      CopyInto(block, 8, stream);
      assert block[..] == block[..8] + block[8..];
    }
  }

  method CopyInto(block: array<byte>, at: nat, data: seq<byte>)
    requires at + |data| <= block.Length
    modifies block
    ensures block[..] == old(block[..at]) + data + old(block[at + |data|..])
  {
    for i := 0 to |data|
      invariant block[..at] == old(block[..at]) && block[at + |data|..] == old(block[at + |data|..])
      invariant block[at..at + i] == data[..i]
    {
      block[at + i] := data[i];
    }
  }

  /** The receiving end of a socket whose peer closes once `pending` has been read. */
  class Socket {
    var pending: seq<byte>

    constructor (bytes: seq<byte>)
      ensures pending == bytes
    {
      pending := bytes;
    }

    /** recv with MSG_WAITALL: n bytes, or fewer when the peer closes first. */
    method Recv(n: nat) returns (data: seq<byte>)
      modifies this
      ensures |data| == if |old(pending)| < n then |old(pending)| else n
      ensures data + pending == old(pending)
    {
      var m := if |pending| < n then |pending| else n;
      data := pending[..m];
      pending := pending[m..];
    }
  }

  method ReceivePacket(socket: Socket) returns (r: Received)
    modifies socket
    ensures (r, socket.pending) == Receive(old(socket.pending))
  {
    ghost var input := socket.pending;
    var code := socket.Recv(4);
    if |code| == 0 { return Closed; }
    if |code| < 4 { return Undefined; }
    assert code == input[..4] && socket.pending == input[4..];
    var prefix := socket.Recv(4);
    if |prefix| == 0 { return Broken; }
    if |prefix| < 4 { return Undefined; }
    assert prefix == input[4..8] && socket.pending == input[8..];
    var size := DecodeInt(prefix);
    if size < 0 { return Broken; }
    var body := [];
    if size > 0 {
      body := socket.Recv(size);
      if |body| != size { return Broken; }
    }
    assert body == input[8..][..size] && socket.pending == input[8..][size..];
    var parsed := ParseBody(body);
    match parsed
    case BadItem => return Undefined;
    case Items(items) => return Message(DecodeInt(code), items);
  }

  /** What is parsed from d on, when `items` have been parsed already. */
  function ParseAfter(items: seq<Item>, body: seq<byte>, d: nat): Parsed
    requires d <= |body|
  {
    var p := Parse(body, d);
    if p.BadItem? then BadItem else Items(items + p.items)
  }

  lemma ParseEnds(items: seq<Item>, body: seq<byte>)
    ensures ParseAfter([], body, 0) == Parse(body, 0) && ParseAfter(items, body, |body|) == Items(items)
  {
    assert items + [] == items;
    var p := Parse(body, 0);
    if p.Items? { assert [] + p.items == p.items; }
  }

  /** One turn of the loop below. */
  lemma ParseTurn(items: seq<Item>, body: seq<byte>, d: nat)
    requires d < |body|
    ensures d + 4 > |body| ==> ParseAfter(items, body, d) == BadItem
    ensures d + 4 <= |body| ==>
      var n := DecodeInt(body[d..d + 4]);
      ParseAfter(items, body, d) == if n < 0 || d + 4 + n > |body| then BadItem
                                    else ParseAfter(items + [body[d + 4..d + 4 + n]], body, d + 4 + n)
  {
    if d + 4 <= |body| {
      var n := DecodeInt(body[d..d + 4]);
      if 0 <= n <= |body| - d - 4 {
        var x, p := body[d + 4..d + 4 + n], Parse(body, d + 4 + n);
        if p.Items? { assert items + [x] + p.items == items + ([x] + p.items); }
      }
    }
  }

  /** The loop that advances `d` over the body and appends one item per turn. */
  method ParseBody(body: seq<byte>) returns (r: Parsed)
    ensures r == Parse(body, 0)
  {
    var d := 0;
    var items: seq<Item> := [];
    ParseEnds([], body);
    while d < |body|
      invariant 0 <= d <= |body|
      invariant Parse(body, 0) == ParseAfter(items, body, d)
    {
      ParseTurn(items, body, d);
      if d + 4 > |body| { return BadItem; }
      var n := DecodeInt(body[d..d + 4]);
      if n < 0 || d + 4 + n > |body| { return BadItem; }
      items := items + [body[d + 4..d + 4 + n]];
      d := d + 4 + n;
    }
    ParseEnds(items, body);
    return Items(items);
  }
}
