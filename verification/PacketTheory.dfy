/** The Rex packet layout: a packed little-endian head, a one-byte title length, title, data.

    `View` reads a packet's fields out of its bytes; edits are specified by what they do to the view. */
module PacketTheory {
  import opened Common
  import opened Bytes

  const HEAD_LEN: nat := 36
  const TITLE_OFFSET: nat := 37

  datatype Command =
    | CTitle | CTitleReturn | CGroup | CGroupReturn | CCast | CCastReturn | CLogin | CLoginReturn
    | CCheck | CCheckReturn | CRegTitle | CRegTitleReturn | CDelTitle | CDelTitleReturn | CAck | CAckReturn

  function CommandCode(c: Command): nat {
    match c
    case CTitle => 9901 case CTitleReturn => 9902 case CGroup => 9903 case CGroupReturn => 9904
    case CCast => 9905 case CCastReturn => 9906 case CLogin => 9907 case CLoginReturn => 9908
    case CCheck => 9909 case CCheckReturn => 9910 case CRegTitle => 9911 case CRegTitleReturn => 9912
    case CDelTitle => 9913 case CDelTitleReturn => 9914 case CAck => 9915 case CAckReturn => 9916
  }

  /** An unknown code reads as a login. */
  function CommandOf(code: nat): Command {
    match code
    case 9901 => CTitle case 9902 => CTitleReturn case 9903 => CGroup case 9904 => CGroupReturn
    case 9905 => CCast case 9906 => CCastReturn case 9907 => CLogin case 9908 => CLoginReturn
    case 9909 => CCheck case 9910 => CCheckReturn case 9911 => CRegTitle case 9912 => CRegTitleReturn
    case 9913 => CDelTitle case 9914 => CDelTitleReturn case 9915 => CAck case 9916 => CAckReturn
    case _ => CLogin
  }

  datatype RetCode = Success | Error | NoTarget | AckTimeout | AckFailed

  function RetCodeValue(r: RetCode): nat {
    match r
    case Success => 0 case Error => 1 case NoTarget => 8802 case AckTimeout => 8803 case AckFailed => 8804
  }

  /** An unknown code reads as an error. */
  function RetCodeOf(code: nat): RetCode {
    match code
    case 0 => Success case 1 => Error case 8802 => NoTarget case 8803 => AckTimeout case 8804 => AckFailed
    case _ => Error
  }

  lemma CodesRoundTrip(c: Command, r: RetCode)
    ensures CommandOf(CommandCode(c)) == c && CommandCode(c) < U32_SPAN
    ensures RetCodeOf(RetCodeValue(r)) == r && RetCodeValue(r) < U32_SPAN
  {}

  /** Commands are numbered from 9901 in this order. */
  const COMMANDS: seq<Command> := [
    CTitle, CTitleReturn, CGroup, CGroupReturn, CCast, CCastReturn, CLogin, CLoginReturn,
    CCheck, CCheckReturn, CRegTitle, CRegTitleReturn, CDelTitle, CDelTitleReturn, CAck, CAckReturn]

  /** A code is a command's exactly when it is among 9901 to 9916; every other one reads as a login. */
  lemma CommandNumbers(code: nat)
    ensures 9901 <= code <= 9916 ==>
              CommandOf(code) == COMMANDS[code - 9901] && CommandCode(COMMANDS[code - 9901]) == code
    ensures !(9901 <= code <= 9916) ==> CommandOf(code) == CLogin
  {}

  /* ---------------- layout ---------------- */

  datatype View = View(command: nat, retcode: nat, messageId: nat, source: nat, title: Buffer, data: Buffer)

  function TitleLen(c: Buffer): nat
    requires |c| > HEAD_LEN
  {
    c[HEAD_LEN]
  }

  /** A packet: its length field is its length, and the title fits. */
  ghost predicate WellFormed(c: Buffer) {
    TITLE_OFFSET <= |c| && TITLE_OFFSET + TitleLen(c) <= |c| && Field(c, 0, 4) == |c|
  }

  /** The fields of a packet, whatever its length field says. */
  ghost function ViewOf(c: Buffer): View
    requires TITLE_OFFSET <= |c| && TITLE_OFFSET + TitleLen(c) <= |c|
  {
    View(Field(c, 4, 4), Field(c, 8, 4), Field(c, 12, 8), Field(c, 20, 16),
         c[TITLE_OFFSET..TITLE_OFFSET + TitleLen(c)], c[TITLE_OFFSET + TitleLen(c)..])
  }

  lemma MessageIdBound(c: Buffer)
    requires WellFormed(c)
    ensures ViewOf(c).messageId < U64_SPAN
  {
    FromLEBound(c[12..20]);
    PowerSizes();
  }

  /* ---------------- construction ---------------- */

  /** The five head fields, written over the first 36 bytes. */
  function PutHead(c: Buffer, total: nat, command: nat, retcode: nat, messageId: nat, source: nat): (r: Buffer)
    requires HEAD_LEN <= |c|
    ensures |r| == |c|
  {
    Put(Put(Put(Put(Put(c, 0, 4, total), 4, 4, command), 8, 4, retcode), 12, 8, messageId), 20, 16, source)
  }

  function Blank(n: nat): Buffer {
    seq(n, i => 0)
  }

  /** `title_len as u8` and `total_len as u32` cut off what does not fit. */
  function New(command: Command, title: Buffer, data: Buffer): (c: Buffer)
    ensures |c| == TITLE_OFFSET + |title| + |data|
  {
    var body := Body(title, data);
    PutHead(body, |body| % U32_SPAN, CommandCode(command), RetCodeValue(Success), 0, 0)
  }

  lemma PutHeadTail(c: Buffer, total: nat, command: nat, retcode: nat, messageId: nat, source: nat)
    requires HEAD_LEN <= |c|
    ensures PutHead(c, total, command, retcode, messageId, source)[HEAD_LEN..|c|] == c[HEAD_LEN..|c|]
  {
    var c1 := Put(c, 0, 4, total);
    var c2 := Put(c1, 4, 4, command);
    var c3 := Put(c2, 8, 4, retcode);
    var c4 := Put(c3, 12, 8, messageId);
    SliceBesidePut(c, 0, 4, total, HEAD_LEN, |c|);
    SliceBesidePut(c1, 4, 4, command, HEAD_LEN, |c|);
    SliceBesidePut(c2, 8, 4, retcode, HEAD_LEN, |c|);
    SliceBesidePut(c3, 12, 8, messageId, HEAD_LEN, |c|);
    SliceBesidePut(c4, 20, 16, source, HEAD_LEN, |c|);
  }

  ghost predicate HeadFits(total: nat, command: nat, retcode: nat, messageId: nat, source: nat) {
    total < U32_SPAN && command < U32_SPAN && retcode < U32_SPAN && messageId < U64_SPAN && source < U128_SPAN
  }

  lemma PutHeadFields(c: Buffer, total: nat, command: nat, retcode: nat, messageId: nat, source: nat)
    requires HEAD_LEN <= |c| && HeadFits(total, command, retcode, messageId, source)
    ensures var r := PutHead(c, total, command, retcode, messageId, source);
            && Field(r, 0, 4) == total && Field(r, 4, 4) == command && Field(r, 8, 4) == retcode
            && Field(r, 12, 8) == messageId && Field(r, 20, 16) == source
  {
    var c1 := Put(c, 0, 4, total);
    var c2 := Put(c1, 4, 4, command);
    var c3 := Put(c2, 8, 4, retcode);
    var c4 := Put(c3, 12, 8, messageId);
    FieldOfPut(c, 0, 4, total);
    FieldOfPut(c1, 4, 4, command);
    FieldOfPut(c2, 8, 4, retcode);
    FieldOfPut(c3, 12, 8, messageId);
    FieldOfPut(c4, 20, 16, source);
    SliceBesidePut(c1, 4, 4, command, 0, 4);
    SliceBesidePut(c2, 8, 4, retcode, 0, 4);
    SliceBesidePut(c2, 8, 4, retcode, 4, 8);
    SliceBesidePut(c3, 12, 8, messageId, 0, 4);
    SliceBesidePut(c3, 12, 8, messageId, 4, 8);
    SliceBesidePut(c3, 12, 8, messageId, 8, 12);
    SliceBesidePut(c4, 20, 16, source, 0, 4);
    SliceBesidePut(c4, 20, 16, source, 4, 8);
    SliceBesidePut(c4, 20, 16, source, 8, 12);
    SliceBesidePut(c4, 20, 16, source, 12, 20);
  }

  /** Reading a tail `[n] + title + data` that follows a head. */
  lemma TailParts(c: Buffer, head: Buffer, title: Buffer, data: Buffer)
    requires |head| == HEAD_LEN && |title| < 256
    requires c[..] == head + [|title|] + title + data
    ensures |c| == TITLE_OFFSET + |title| + |data| && TitleLen(c) == |title|
    ensures c[TITLE_OFFSET..TITLE_OFFSET + |title|] == title && c[TITLE_OFFSET + |title|..] == data
  {}

  /** A buffer with the same bytes after the head has the same title and data. */
  lemma SameTail(c: Buffer, body: Buffer, title: Buffer, data: Buffer)
    requires |c| == |body| == TITLE_OFFSET + |title| + |data| && c[HEAD_LEN..|c|] == body[HEAD_LEN..|c|]
    requires TitleLen(body) == |title|
    requires body[TITLE_OFFSET..TITLE_OFFSET + |title|] == title && body[TITLE_OFFSET + |title|..] == data
    ensures TitleLen(c) == |title|
    ensures c[TITLE_OFFSET..TITLE_OFFSET + |title|] == title && c[TITLE_OFFSET + |title|..] == data
  {
    forall i | HEAD_LEN <= i < |c| ensures c[i] == body[i] {
      assert c[i] == c[HEAD_LEN..|c|][i - HEAD_LEN] && body[i] == body[HEAD_LEN..|c|][i - HEAD_LEN];
    }
  }

  function Body(title: Buffer, data: Buffer): Buffer {
    Blank(HEAD_LEN) + [|title| % 256] + title + data
  }

  /** The bytes of a packet, field after field. */
  function Wire(v: View): (c: Buffer)
    requires |v.title| < 256
  {
    LE(TITLE_OFFSET + |v.title| + |v.data|, 4) + LE(v.command, 4) + LE(v.retcode, 4) + LE(v.messageId, 8)
    + LE(v.source, 16) + [|v.title|] + v.title + v.data
  }

  lemma SplitHead(c: Buffer)
    requires |c| >= TITLE_OFFSET
    ensures c == c[0..4] + c[4..8] + c[8..12] + c[12..20] + c[20..36] + [c[36]] + c[37..]
  {}

  /** A packet is, byte for byte, its length, command, return code, message id, source, title length, title and data,
      the numbers in 4, 4, 4, 8 and 16 little-endian bytes. */
  lemma PacketIsItsWire(c: Buffer)
    requires WellFormed(c)
    ensures c == Wire(ViewOf(c))
  {
    SplitHead(c);
    LEofFromLE(c[0..4]);
    LEofFromLE(c[4..8]);
    LEofFromLE(c[8..12]);
    LEofFromLE(c[12..20]);
    LEofFromLE(c[20..36]);
    assert c[37..] == ViewOf(c).title + ViewOf(c).data;
  }

  /** A head written in front of a title and data reads back field by field. */
  lemma MadeReadsBack(command: nat, retcode: nat, messageId: nat, source: nat, title: Buffer, data: Buffer)
    requires |title| <= 255 && TITLE_OFFSET + |title| + |data| < U32_SPAN
    requires HeadFits(|Body(title, data)|, command, retcode, messageId, source)
    ensures var c := PutHead(Body(title, data), |Body(title, data)|, command, retcode, messageId, source);
            WellFormed(c) && ViewOf(c) == View(command, retcode, messageId, source, title, data)
  {
    var body := Body(title, data);
    var c := PutHead(body, |body|, command, retcode, messageId, source);
    PutHeadFields(body, |body|, command, retcode, messageId, source);
    PutHeadTail(body, |body|, command, retcode, messageId, source);
    TailParts(body, Blank(HEAD_LEN), title, data);
    SameTail(c, body, title, data);
  }

  lemma NewHeadFits(command: Command, total: nat)
    requires total < U32_SPAN
    ensures HeadFits(total, CommandCode(command), 0, 0, 0)
  {
    PowerSizes();
    CodesRoundTrip(command, Success);
  }

  /** A new packet reads back as what it was made of. */
  lemma NewReadsBack(command: Command, title: Buffer, data: Buffer)
    requires |title| <= 255 && TITLE_OFFSET + |title| + |data| < U32_SPAN
    ensures var c := New(command, title, data);
            WellFormed(c) && ViewOf(c) == View(CommandCode(command), 0, 0, 0, title, data)
  {
    var n := |Body(title, data)|;
    NewHeadFits(command, n);
    assert n % U32_SPAN == n;
    MadeReadsBack(CommandCode(command), 0, 0, 0, title, data);
  }

  /** ... and it does so only if the title has at most 255 bytes and the whole fits 32 bits. */
  lemma NewReadsBackExactly(command: Command, title: Buffer, data: Buffer)
    ensures var c := New(command, title, data);
            (WellFormed(c) && ViewOf(c).title == title)
            <==> |title| <= 255 && TITLE_OFFSET + |title| + |data| < U32_SPAN
  {
    var c := New(command, title, data);
    if |title| <= 255 && TITLE_OFFSET + |title| + |data| < U32_SPAN {
      NewReadsBack(command, title, data);
    } else if WellFormed(c) {
      FromLEBound(c[0..4]);
      PowerSizes();
      assert TitleLen(c) < 256;
    }
  }

  /* ---------------- edits ---------------- */

  datatype Edit =
    | SetCommand(command: Command)
    | SetRetCode(retcode: RetCode)
    | SetMessageId(messageId: nat)
    | SetSource(source: nat)
    | SetData(data: Buffer)

  /** What a setter accepts: 64- and 128-bit values, and data that keeps the length in 32 bits. */
  ghost predicate Fits(v: View, e: Edit) {
    match e
    case SetMessageId(m) => m < U64_SPAN
    case SetSource(s) => s < U128_SPAN
    case SetData(d) => TITLE_OFFSET + |v.title| + |d| < U32_SPAN
    case _ => true
  }

  function EditView(v: View, e: Edit): View {
    match e
    case SetCommand(c) => v.(command := CommandCode(c))
    case SetRetCode(r) => v.(retcode := RetCodeValue(r))
    case SetMessageId(m) => v.(messageId := m)
    case SetSource(s) => v.(source := s)
    case SetData(d) => v.(data := d)
  }

  /** Replaces everything after the title and refreshes the length field. */
  function ReplaceData(c: Buffer, data: Buffer): (r: Buffer)
    requires TITLE_OFFSET <= |c| && TITLE_OFFSET + TitleLen(c) <= |c|
    ensures |r| == TITLE_OFFSET + TitleLen(c) + |data|
  {
    var grown := c[..TITLE_OFFSET + TitleLen(c)] + data;
    Put(grown, 0, 4, |grown| % U32_SPAN)
  }

  function EditBytes(c: Buffer, e: Edit): Buffer
    requires TITLE_OFFSET <= |c| && TITLE_OFFSET + TitleLen(c) <= |c|
  {
    match e
    case SetCommand(cmd) => Put(c, 4, 4, CommandCode(cmd))
    case SetRetCode(r) => Put(c, 8, 4, RetCodeValue(r))
    case SetMessageId(m) => Put(c, 12, 8, m)
    case SetSource(s) => Put(c, 20, 16, s)
    case SetData(d) => ReplaceData(c, d)
  }

  /** Writing one head field leaves the rest of the packet alone. */
  lemma PutKeepsRest(c: Buffer, off: nat, k: nat, v: nat)
    requires WellFormed(c) && 4 <= off && off + k <= HEAD_LEN
    ensures WellFormed(Put(c, off, k, v)) && TitleLen(Put(c, off, k, v)) == TitleLen(c)
    ensures ViewOf(Put(c, off, k, v)).title == ViewOf(c).title && ViewOf(Put(c, off, k, v)).data == ViewOf(c).data
  {
    var r := Put(c, off, k, v);
    SliceBesidePut(c, off, k, v, 0, 4);
    SliceBesidePut(c, off, k, v, TITLE_OFFSET, TITLE_OFFSET + TitleLen(c));
    SliceBesidePut(c, off, k, v, TITLE_OFFSET + TitleLen(c), |c|);
    PutAt(c, off, k, v, HEAD_LEN);
    assert r[TITLE_OFFSET + TitleLen(c)..] == r[TITLE_OFFSET + TitleLen(c)..|c|];
    assert c[TITLE_OFFSET + TitleLen(c)..] == c[TITLE_OFFSET + TitleLen(c)..|c|];
  }

  lemma FieldBesidePut(c: Buffer, off: nat, k: nat, v: nat, at: nat, width: nat)
    requires off + k <= |c| && at + width <= |c| && (at + width <= off || off + k <= at)
    ensures Field(Put(c, off, k, v), at, width) == Field(c, at, width)
  {
    SliceBesidePut(c, off, k, v, at, at + width);
  }

  /** The head has four editable fields; writing one leaves the three others. */
  lemma OtherFields(c: Buffer, off: nat, k: nat, v: nat)
    requires WellFormed(c) && (off, k) in {(4, 4), (8, 4), (12, 8), (20, 16)}
    ensures var r := Put(c, off, k, v);
            && (off != 4 ==> Field(r, 4, 4) == Field(c, 4, 4)) && (off != 8 ==> Field(r, 8, 4) == Field(c, 8, 4))
            && (off != 12 ==> Field(r, 12, 8) == Field(c, 12, 8))
            && (off != 20 ==> Field(r, 20, 16) == Field(c, 20, 16))
  {
    if off != 4 { FieldBesidePut(c, off, k, v, 4, 4); }
    if off != 8 { FieldBesidePut(c, off, k, v, 8, 4); }
    if off != 12 { FieldBesidePut(c, off, k, v, 12, 8); }
    if off != 20 { FieldBesidePut(c, off, k, v, 20, 16); }
  }

  lemma SetHeadField(c: Buffer, e: Edit)
    requires WellFormed(c) && Fits(ViewOf(c), e) && !e.SetData?
    ensures WellFormed(EditBytes(c, e)) && ViewOf(EditBytes(c, e)) == EditView(ViewOf(c), e)
  {
    PowerSizes();
    match e {
      case SetCommand(cmd) =>
        CodesRoundTrip(cmd, Success);
        PutKeepsRest(c, 4, 4, CommandCode(cmd));
        FieldOfPut(c, 4, 4, CommandCode(cmd));
        OtherFields(c, 4, 4, CommandCode(cmd));
      case SetRetCode(r) =>
        CodesRoundTrip(CTitle, r);
        PutKeepsRest(c, 8, 4, RetCodeValue(r));
        FieldOfPut(c, 8, 4, RetCodeValue(r));
        OtherFields(c, 8, 4, RetCodeValue(r));
      case SetMessageId(m) =>
        PutKeepsRest(c, 12, 8, m);
        FieldOfPut(c, 12, 8, m);
        OtherFields(c, 12, 8, m);
      case SetSource(s) =>
        PutKeepsRest(c, 20, 16, s);
        FieldOfPut(c, 20, 16, s);
        OtherFields(c, 20, 16, s);
    }
  }

  /** Writing the true length into the length field makes a packet and changes nothing else. */
  lemma PutLength(g: Buffer)
    requires TITLE_OFFSET <= |g| < U32_SPAN && TITLE_OFFSET + TitleLen(g) <= |g|
    ensures TitleLen(Put(g, 0, 4, |g|)) == TitleLen(g)
    ensures WellFormed(Put(g, 0, 4, |g|)) && ViewOf(Put(g, 0, 4, |g|)) == ViewOf(g)
  {
    PowerSizes();
    var r := Put(g, 0, 4, |g|);
    var cut := TITLE_OFFSET + TitleLen(g);
    FieldOfPut(g, 0, 4, |g|);
    PutAt(g, 0, 4, |g|, HEAD_LEN);
    SliceBesidePut(g, 0, 4, |g|, 4, 8);
    SliceBesidePut(g, 0, 4, |g|, 8, 12);
    SliceBesidePut(g, 0, 4, |g|, 12, 20);
    SliceBesidePut(g, 0, 4, |g|, 20, 36);
    SliceBesidePut(g, 0, 4, |g|, TITLE_OFFSET, cut);
    SliceBesidePut(g, 0, 4, |g|, cut, |g|);
    assert r[cut..] == r[cut..|g|] && g[cut..] == g[cut..|g|];
  }

  lemma GrownView(c: Buffer, data: Buffer)
    requires TITLE_OFFSET <= |c| && TITLE_OFFSET + TitleLen(c) <= |c|
    ensures var g := c[..TITLE_OFFSET + TitleLen(c)] + data;
            TitleLen(g) == TitleLen(c) && ViewOf(g) == ViewOf(c).(data := data)
  {
    var cut := TITLE_OFFSET + TitleLen(c);
    SlicesOfGrown(c, cut, data);
    assert (c[..cut] + data)[cut..] == data;
  }

  lemma SetDataEffect(c: Buffer, data: Buffer)
    requires WellFormed(c) && Fits(ViewOf(c), SetData(data))
    ensures WellFormed(ReplaceData(c, data)) && ViewOf(ReplaceData(c, data)) == ViewOf(c).(data := data)
  {
    GrownView(c, data);
    PutLength(c[..TITLE_OFFSET + TitleLen(c)] + data);
  }

  /** Replacing the data leaves a packet exactly when the new length fits 32 bits. */
  lemma SetDataExactly(c: Buffer, data: Buffer)
    requires WellFormed(c)
    ensures WellFormed(ReplaceData(c, data)) <==> Fits(ViewOf(c), SetData(data))
  {
    if Fits(ViewOf(c), SetData(data)) {
      SetDataEffect(c, data);
    } else if WellFormed(ReplaceData(c, data)) {
      FromLEBound(ReplaceData(c, data)[0..4]);
      PowerSizes();
    }
  }

  lemma SlicesOfGrown(c: Buffer, cut: nat, data: Buffer)
    requires TITLE_OFFSET <= cut <= |c|
    ensures var g := c[..cut] + data;
            && g[4..8] == c[4..8] && g[8..12] == c[8..12] && g[12..20] == c[12..20] && g[20..36] == c[20..36]
            && g[HEAD_LEN] == c[HEAD_LEN] && g[TITLE_OFFSET..cut] == c[TITLE_OFFSET..cut]
  {}

  /** Every setter changes the field it names, leaves the others, and keeps the length field right. */
  lemma EditEffect(c: Buffer, e: Edit)
    requires WellFormed(c) && Fits(ViewOf(c), e)
    ensures WellFormed(EditBytes(c, e)) && ViewOf(EditBytes(c, e)) == EditView(ViewOf(c), e)
  {
    if e.SetData? { SetDataEffect(c, e.data); } else { SetHeadField(c, e); }
  }

  ghost predicate AllFit(v: View, es: seq<Edit>)
    decreases |es|
  {
    es == [] || (Fits(v, es[0]) && AllFit(EditView(v, es[0]), es[1..]))
  }

  function EditAllView(v: View, es: seq<Edit>): View
    decreases |es|
  {
    if es == [] then v else EditAllView(EditView(v, es[0]), es[1..])
  }

  /** `c'` comes from `c` by these edits. */
  ghost predicate EditedTo(c: Buffer, es: seq<Edit>, c': Buffer)
    decreases |es|
  {
    if es == [] then c' == c
    else TITLE_OFFSET <= |c| && TITLE_OFFSET + TitleLen(c) <= |c| && EditedTo(EditBytes(c, es[0]), es[1..], c')
  }

  /** Any sequence of edits of a packet leaves a packet, whose fields are the edited fields. */
  lemma {:induction false} EveryEditRun(c: Buffer, es: seq<Edit>, c': Buffer)
    requires WellFormed(c) && AllFit(ViewOf(c), es) && EditedTo(c, es, c')
    ensures WellFormed(c') && ViewOf(c') == EditAllView(ViewOf(c), es)
    decreases |es|
  {
    if es != [] {
      EditEffect(c, es[0]);
      EveryEditRun(EditBytes(c, es[0]), es[1..], c');
    }
  }

  /* ---------------- deserialisation ---------------- */

  /** `Broken` stands for the debug assertion on a length field below 37. */
  datatype Parse = NeedMore | Broken | Frame(packet: Buffer, rest: Buffer)

  function TryDeserialize(buf: Buffer): Parse {
    if |buf| < 4 then NeedMore
    else
      var total := Field(buf, 0, 4);
      if total < TITLE_OFFSET then Broken
      else if |buf| < total then NeedMore
      else Frame(buf[..total], buf[total..])
  }

  /** A packet at the front of a longer buffer comes back unchanged, and nothing behind it is touched. */
  lemma DeserializeFromLonger(c: Buffer, rest: Buffer)
    requires WellFormed(c)
    ensures TryDeserialize(c + rest) == Frame(c, rest)
  {
    assert (c + rest)[0..4] == c[0..4];
    assert (c + rest)[..|c|] == c && (c + rest)[|c|..] == rest;
  }

  /** A packet made by `New` and edited in any way deserialises, from the front of any buffer, to itself. */
  lemma PacketRoundTrip(command: Command, title: Buffer, data: Buffer, es: seq<Edit>, c: Buffer, rest: Buffer)
    requires |title| <= 255 && TITLE_OFFSET + |title| + |data| < U32_SPAN
    requires AllFit(View(CommandCode(command), 0, 0, 0, title, data), es)
    requires EditedTo(New(command, title, data), es, c)
    ensures TryDeserialize(c + rest) == Frame(c, rest)
    ensures WellFormed(c)
            && ViewOf(c) == EditAllView(View(CommandCode(command), 0, 0, 0, title, data), es)
  {
    NewReadsBack(command, title, data);
    EveryEditRun(New(command, title, data), es, c);
    DeserializeFromLonger(c, rest);
  }

  /* ---------------- acknowledgements ---------------- */

  /** A packet with an empty title and the acknowledged id as eight data bytes. */
  function AckPacket(messageId: nat, source: nat, command: Command): (c: Buffer)
    ensures |c| == TITLE_OFFSET + 8
  {
    var body := Body([], LE(messageId, 8));
    PutHead(body, |body|, CommandCode(command), RetCodeValue(Success), 0, source)
  }

  /** Reads the eight bytes after an empty title. */
  function AckedId(c: Buffer): nat
    requires |c| >= TITLE_OFFSET + 8
  {
    Field(c, TITLE_OFFSET, 8)
  }

  lemma AckedIdIsData(c: Buffer)
    requires |c| == TITLE_OFFSET + 8 && TitleLen(c) <= 8 && ViewOf(c).title == []
    ensures AckedId(c) == FromLE(ViewOf(c).data)
  {
    assert TitleLen(c) == |ViewOf(c).title|;
    assert c[TITLE_OFFSET..TITLE_OFFSET + 8] == c[TITLE_OFFSET..];
  }

  /** An acknowledgement is a well-formed packet that carries its source, command and message id. */
  /** A return code set in a packet without a title leaves the acknowledged id alone. */
  lemma SetCodeKeepsId(c: Buffer, r: RetCode)
    requires WellFormed(c) && |c| >= TITLE_OFFSET + 8
    ensures var d := Put(c, 8, 4, RetCodeValue(r));
            && WellFormed(d) && ViewOf(d) == ViewOf(c).(retcode := RetCodeValue(r)) && AckedId(d) == AckedId(c)
  {
    EditEffect(c, SetRetCode(r));
    SliceBesidePut(c, 8, 4, RetCodeValue(r), TITLE_OFFSET, TITLE_OFFSET + 8);
  }

  lemma AckRoundTrip(messageId: nat, source: nat, command: Command)
    requires messageId < U64_SPAN && source < U128_SPAN
    ensures var c := AckPacket(messageId, source, command);
            && WellFormed(c)
            && ViewOf(c) == View(CommandCode(command), 0, 0, source, [], LE(messageId, 8))
            && AckedId(c) == messageId
  {
    var c := AckPacket(messageId, source, command);
    PowerSizes();
    CodesRoundTrip(command, Success);
    MadeReadsBack(CommandCode(command), 0, 0, source, [], LE(messageId, 8));
    FromLEofLE(messageId, 8);
    AckedIdIsData(c);
  }
}
