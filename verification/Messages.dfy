/** Table events and gossip envelopes on the wire, with the compound messages that batch them. */
module Messages {
  import opened Bytes
  import opened Bitmaps
  import opened Varints
  import opened ProtoDecode
  import opened ProtoEncode

  const MESSAGE_TYPE_COMPOUND: int32 := 5

  datatype TableEvent = TableEvent(
    kind: int32,
    ltime: u64,
    nodeName: seq<byte>,
    networkID: seq<byte>,
    tableName: seq<byte>,
    key: seq<byte>,
    value: seq<byte>,
    residualReapTime: int32)

  datatype GossipMessage = GossipMessage(kind: int32, data: seq<byte>)

  const TABLE_EVENT: Schema :=
    map[1 := Int32, 2 := Uint64, 3 := Text, 4 := Text, 5 := Text, 6 := Text, 7 := Text, 8 := Int32]
  const GOSSIP: Schema := map[1 := Int32, 2 := Text]
  const COMPOUND: Schema := map[1 := Nested]

  function TableFields(e: TableEvent): (fs: seq<Field>) {
    [Field(1, Num(e.kind)), Field(2, Num(e.ltime)), Field(3, Str(e.nodeName)), Field(4, Str(e.networkID)),
     Field(5, Str(e.tableName)), Field(6, Str(e.key)), Field(7, Str(e.value)), Field(8, Num(e.residualReapTime))]
  }

  function GossipFields(m: GossipMessage): (fs: seq<Field>) {
    [Field(1, Num(m.kind)), Field(2, Str(m.data))]
  }

  function CompoundFields(msgs: seq<seq<byte>>): (fs: seq<Field>) {
    [Field(1, List(msgs))]
  }

  function Int32At(r: Record, num: nat): (n: int32) {
    if num in r && r[num].Num? && -I32_LIMIT <= r[num].n < I32_LIMIT then r[num].n else 0
  }

  function Uint64At(r: Record, num: nat): (n: u64) {
    if num in r && r[num].Num? && 0 <= r[num].n < U64_LIMIT then r[num].n else 0
  }

  function TextAt(r: Record, num: nat): (bs: seq<byte>) {
    if num in r && r[num].Str? then r[num].bytes else []
  }

  function AsTableEvent(r: Record): (e: TableEvent) {
    TableEvent(Int32At(r, 1), Uint64At(r, 2), TextAt(r, 3), TextAt(r, 4), TextAt(r, 5), TextAt(r, 6), TextAt(r, 7),
               Int32At(r, 8))
  }

  function AsGossipMessage(r: Record): (m: GossipMessage) {
    GossipMessage(Int32At(r, 1), TextAt(r, 2))
  }

  function AsCompound(r: Record): (msgs: seq<seq<byte>>) {
    Items(r, 1)
  }

  function Typed<T>(r: Outcome<Record>, f: Record -> T): (o: Outcome<T>) {
    match r
    case Ok(v) => Ok(f(v))
    case Err(e) => Err(e)
    case Panics => Panics
  }

  /** A field with a number of its own is found in the record, unless it has its zero value. */
  lemma {:induction false} RecordLookup(fs: seq<Field>, k: nat)
    requires k < |fs| && Distinct(fs)
    ensures
      var f, r := fs[k], RecordOf(fs);
      if IsZero(f.val) then f.num !in r else f.num in r && r[f.num] == f.val
    decreases |fs|
  {
    var init := fs[..|fs| - 1];
    RecordNumbers(init);
    if k < |fs| - 1 {
      RecordLookup(init, k);
    }
  }

  // ----- table events ---------------------------------------------------------

  method MarshalTableEvent(e: TableEvent) returns (bs: seq<byte>)
    requires |Enc(TableFields(e))| < MAX_INPUT
    ensures bs == Enc(TableFields(e))
  {
    bs := Marshal(TableFields(e));
  }

  method UnmarshalTableEvent(dAtA: seq<byte>) returns (r: Outcome<TableEvent>)
    requires |dAtA| < MAX_INPUT
    ensures r == Typed(Decode(TABLE_EVENT, dAtA), AsTableEvent)
  {
    var m := Unmarshal(TABLE_EVENT, dAtA);
    return Typed(m, AsTableEvent);
  }

  /** Every table event survives the wire, negative residual times included. */
  lemma TableEventRoundTrip(e: TableEvent)
    requires |Enc(TableFields(e))| < MAX_INPUT
    ensures Typed(Decode(TABLE_EVENT, Enc(TableFields(e))), AsTableEvent) == Ok(e)
  {
    hide Enc, Decode, RecordOf, Matches, Distinct, IsZero, Int32At, Uint64At, TextAt;
    var fs := TableFields(e);
    TableMatches(e);
    DecodeEnc(TABLE_EVENT, fs);
    NumBack(fs, 0, e.kind);
    NumBack(fs, 1, e.ltime);
    TextBack(fs, 2, e.nodeName);
    TextBack(fs, 3, e.networkID);
    TextBack(fs, 4, e.tableName);
    TextBack(fs, 5, e.key);
    TextBack(fs, 6, e.value);
    NumBack(fs, 7, e.residualReapTime);
  }

  lemma TableMatches(e: TableEvent)
    ensures Matches(TABLE_EVENT, TableFields(e)) && Distinct(TableFields(e))
  {
  }

  lemma NumBack(fs: seq<Field>, k: nat, n: int)
    requires k < |fs| && Distinct(fs) && fs[k].val == Num(n)
    ensures -I32_LIMIT <= n < I32_LIMIT ==> Int32At(RecordOf(fs), fs[k].num) == n
    ensures 0 <= n < U64_LIMIT ==> Uint64At(RecordOf(fs), fs[k].num) == n
  {
    hide RecordOf, Distinct;
    RecordLookup(fs, k);
  }

  lemma TextBack(fs: seq<Field>, k: nat, bs: seq<byte>)
    requires k < |fs| && Distinct(fs) && fs[k].val == Str(bs)
    ensures TextAt(RecordOf(fs), fs[k].num) == bs
  {
    hide RecordOf, Distinct;
    RecordLookup(fs, k);
  }

  // ----- gossip and compound messages -----------------------------------------

  method EncodeRawMessage(kind: int32, raw: seq<byte>) returns (buf: seq<byte>)
    requires |Enc(GossipFields(GossipMessage(kind, raw)))| < MAX_INPUT
    ensures buf == Enc(GossipFields(GossipMessage(kind, raw)))
  {
    buf := Marshal(GossipFields(GossipMessage(kind, raw)));
  }

  method DecodeMessage(buf: seq<byte>) returns (r: Outcome<GossipMessage>)
    requires |buf| < MAX_INPUT
    ensures r == Typed(Decode(GOSSIP, buf), AsGossipMessage)
  {
    var m := Unmarshal(GOSSIP, buf);
    return Typed(m, AsGossipMessage);
  }

  lemma GossipRoundTrip(m: GossipMessage)
    requires |Enc(GossipFields(m))| < MAX_INPUT
    ensures Typed(Decode(GOSSIP, Enc(GossipFields(m))), AsGossipMessage) == Ok(m)
  {
    hide Enc, Decode, RecordOf;
    var fs := GossipFields(m);
    DecodeEnc(GOSSIP, fs);
    RecordLookup(fs, 0);
    RecordLookup(fs, 1);
  }

  /** The gossip message that carries a list of messages. */
  function Compound(msgs: seq<seq<byte>>): (m: GossipMessage) {
    GossipMessage(MESSAGE_TYPE_COMPOUND, Enc(CompoundFields(msgs)))
  }

  method MakeCompoundMessage(msgs: seq<seq<byte>>) returns (buf: seq<byte>)
    requires |Enc(GossipFields(Compound(msgs)))| < MAX_INPUT
    ensures buf == Enc(GossipFields(Compound(msgs)))
  {
    hide Enc;
    var list: seq<seq<byte>> := [];
    for i := 0 to |msgs|
      invariant list == msgs[..i]
    {
      list := list + [msgs[i]];
    }
    assert list == msgs;
    DataLength(Compound(msgs));
    buf := Marshal(CompoundFields(list));
    buf := Marshal(GossipFields(GossipMessage(MESSAGE_TYPE_COMPOUND, buf)));
  }

  lemma DataLength(m: GossipMessage)
    ensures |m.data| <= |Enc(GossipFields(m))|
  {
    var fs := GossipFields(m);
    assert fs[..1] == [Field(1, Num(m.kind))];
    if m.data != [] {
      TextLength(2, m.data);
    }
  }

  method DecodeCompoundMessage(buf: seq<byte>) returns (r: Outcome<seq<seq<byte>>>)
    requires |buf| < MAX_INPUT
    ensures r == Typed(Decode(COMPOUND, buf), AsCompound)
  {
    var m := Unmarshal(COMPOUND, buf);
    match m
    case Err(e) => return Err(e);
    case Panics => return Panics;
    case Ok(rec) =>
      var parts: seq<seq<byte>> := [];
      for i := 0 to |Items(rec, 1)|
        invariant parts == Items(rec, 1)[..i]
      {
        parts := parts + [Items(rec, 1)[i]];
      }
      assert parts == Items(rec, 1);
      return Ok(parts);
  }

  /** Any list of messages comes back from its compound message, in order. */
  lemma CompoundRoundTrip(msgs: seq<seq<byte>>)
    requires |Enc(GossipFields(Compound(msgs)))| < MAX_INPUT
    ensures
      var g := Typed(Decode(GOSSIP, Enc(GossipFields(Compound(msgs)))), AsGossipMessage);
      && g.Ok? && g.value.kind == MESSAGE_TYPE_COMPOUND
      && Typed(Decode(COMPOUND, g.value.data), AsCompound) == Ok(msgs)
  {
    hide Enc, Decode, RecordOf;
    GossipRoundTrip(Compound(msgs));
    DataLength(Compound(msgs));
    var fs := CompoundFields(msgs);
    DecodeEnc(COMPOUND, fs);
    RecordLookup(fs, 0);
  }

  // ----- the bytes ------------------------------------------------------------

  /** A number behind its tag, negative ones in ten bytes; zero is left out. */
  function NumBytes(tag: byte, n: int): (bs: seq<byte>)
    requires -I64_LIMIT <= n < U64_LIMIT
  {
    if n == 0 then [] else [tag] + EncVarint(if n < 0 then n + U64_LIMIT else n)
  }

  /** Bytes behind their tag and length; none are left out. */
  function TextBytes(tag: byte, text: seq<byte>): (bs: seq<byte>) {
    if text == [] then [] else [tag] + EncVarint(|text|) + text
  }

  lemma NumField(num: nat, n: int)
    requires 1 <= num <= 15 && -I64_LIMIT <= n < U64_LIMIT
    ensures Encodable(Field(num, Num(n))) && EncField(Field(num, Num(n))) == NumBytes(Tag(num, 0), n)
  {
    hide EncVarint;
  }

  lemma TextField(num: nat, text: seq<byte>)
    requires 1 <= num <= 15
    ensures Encodable(Field(num, Str(text))) && EncField(Field(num, Str(text))) == TextBytes(Tag(num, 2), text)
  {
    hide EncVarint;
  }

  /** A table event on the wire, tag by tag. */
  lemma TableEventBytes(e: TableEvent)
    ensures Enc(TableFields(e)) ==
      NumBytes(0x08, e.kind) + NumBytes(0x10, e.ltime) + TextBytes(0x1a, e.nodeName) + TextBytes(0x22, e.networkID)
      + TextBytes(0x2a, e.tableName) + TextBytes(0x32, e.key) + TextBytes(0x3a, e.value)
      + NumBytes(0x40, e.residualReapTime)
  {
    hide Enc, EncField, Encodable, AllEncodable, NumBytes, TextBytes;
    var fs := TableFields(e);
    NoneEncoded();
    NumField(1, e.kind);
    EncSnoc(fs, 0);
    NumField(2, e.ltime);
    EncSnoc(fs, 1);
    TextField(3, e.nodeName);
    EncSnoc(fs, 2);
    TextField(4, e.networkID);
    EncSnoc(fs, 3);
    TextField(5, e.tableName);
    EncSnoc(fs, 4);
    TextField(6, e.key);
    EncSnoc(fs, 5);
    TextField(7, e.value);
    EncSnoc(fs, 6);
    NumField(8, e.residualReapTime);
    EncSnoc(fs, 7);
    assert fs[..0] == [] && fs[..8] == fs;
  }

  lemma NoneEncoded()
    ensures AllEncodable([]) && Enc([]) == []
  {
  }

  lemma EncSnoc(fs: seq<Field>, k: nat)
    requires k < |fs| && AllEncodable(fs[..k]) && Encodable(fs[k])
    ensures AllEncodable(fs[..k + 1]) && Enc(fs[..k + 1]) == Enc(fs[..k]) + EncField(fs[k])
  {
    hide EncField;
    assert fs[..k + 1][..k] == fs[..k];
  }

  /** A gossip message on the wire. */
  lemma GossipBytes(m: GossipMessage)
    ensures Enc(GossipFields(m)) == NumBytes(0x08, m.kind) + TextBytes(0x12, m.data)
  {
    hide Enc, EncField, Encodable, AllEncodable, NumBytes, TextBytes;
    var fs := GossipFields(m);
    NoneEncoded();
    NumField(1, m.kind);
    EncSnoc(fs, 0);
    TextField(2, m.data);
    EncSnoc(fs, 1);
    assert fs[..0] == [] && fs[..2] == fs;
  }

  /** The payloads of a compound message, each a message of its own behind tag 0x0a. */
  function ItemBytes(msgs: seq<seq<byte>>): (bs: seq<byte>) {
    if msgs == [] then []
    else
      var one := TextBytes(0x0a, msgs[|msgs| - 1]);
      ItemBytes(msgs[..|msgs| - 1]) + [0x0a] + EncVarint(|one|) + one
  }

  /** A compound message is of type 5 and holds its items in order. */
  lemma CompoundBytes(msgs: seq<seq<byte>>)
    ensures Enc(CompoundFields(msgs)) == ItemBytes(msgs)
    ensures Enc(GossipFields(Compound(msgs))) == [0x08, 0x05] + TextBytes(0x12, ItemBytes(msgs))
  {
    hide ItemBytes, EncItems;
    var fs := CompoundFields(msgs);
    assert Enc(fs) == EncField(fs[0]) by {
      assert fs[..0] == [] && fs[..1] == fs;
      EncSnoc(fs, 0);
    }
    ItemsBytes(msgs);
    CompoundType(msgs);
  }

  lemma CompoundType(msgs: seq<seq<byte>>)
    ensures Enc(GossipFields(Compound(msgs))) == [0x08, 0x05] + TextBytes(0x12, Enc(CompoundFields(msgs)))
  {
    hide Enc, TextBytes;
    GossipBytes(Compound(msgs));
  }

  lemma {:induction false} ItemsBytes(msgs: seq<seq<byte>>)
    ensures EncItems(1, msgs) == ItemBytes(msgs)
  {
    if msgs != [] {
      ItemsBytes(msgs[..|msgs| - 1]);
    }
  }
}
