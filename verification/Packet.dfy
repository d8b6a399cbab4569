/** The packet object: a byte buffer edited in place. */
module Packets {
  import opened Common
  import opened Bytes
  import opened PacketTheory

  class RexData {
    var content: Buffer

    ghost predicate Valid()
      reads this
    {
      WellFormed(content)
    }

    ghost function Fields(): View
      requires Valid()
      reads this
    {
      ViewOf(content)
    }

    constructor (command: Command, title: Buffer, data: Buffer)
      ensures content == New(command, title, data)
      ensures Valid() && Fields().title == title <==> |title| <= 255 && TITLE_OFFSET + |title| + |data| < U32_SPAN
      ensures |title| <= 255 && TITLE_OFFSET + |title| + |data| < U32_SPAN ==>
              Valid() && Fields() == View(CommandCode(command), 0, 0, 0, title, data)
    {
      content := New(command, title, data);
      new;
      NewReadsBackExactly(command, title, data);
      if |title| <= 255 && TITLE_OFFSET + |title| + |data| < U32_SPAN { NewReadsBack(command, title, data); }
    }

    method SetCommand(command: Command)
      requires Valid()
      modifies this
      ensures Valid() && Fields() == old(Fields()).(command := CommandCode(command))
    {
      EditEffect(content, PacketTheory.SetCommand(command));
      content := Put(content, 4, 4, CommandCode(command));
    }

    method SetRetCode(retcode: RetCode)
      requires Valid()
      modifies this
      ensures Valid() && Fields() == old(Fields()).(retcode := RetCodeValue(retcode))
    {
      EditEffect(content, PacketTheory.SetRetCode(retcode));
      content := Put(content, 8, 4, RetCodeValue(retcode));
    }

    method SetMessageId(messageId: nat)
      requires Valid() && messageId < U64_SPAN
      modifies this
      ensures Valid() && Fields() == old(Fields()).(messageId := messageId)
    {
      EditEffect(content, PacketTheory.SetMessageId(messageId));
      content := Put(content, 12, 8, messageId);
    }

    method SetSource(source: nat)
      requires Valid() && source < U128_SPAN
      modifies this
      ensures Valid() && Fields() == old(Fields()).(source := source)
    {
      EditEffect(content, PacketTheory.SetSource(source));
      content := Put(content, 20, 16, source);
    }

    /** Grows or shrinks the buffer to the new data; still a packet exactly when the length fits. */
    method SetData(data: Buffer)
      requires Valid()
      modifies this
      ensures content == ReplaceData(old(content), data)
      ensures Valid() <==> TITLE_OFFSET + |old(Fields()).title| + |data| < U32_SPAN
      ensures Valid() ==> Fields() == old(Fields()).(data := data)
    {
      SetDataExactly(content, data);
      if Fits(ViewOf(content), PacketTheory.SetData(data)) { SetDataEffect(content, data); }
      var offset := TITLE_OFFSET + TitleLen(content);
      var len := offset + |data|;
      ghost var front := content[..offset];
      if len > |content| {
        content := content + Blank(len - |content|);
      } else {
        content := content[..len];
      }
      assert content[..offset] == front;
      content := content[..offset] + data;
      content := Put(content, 0, 4, len % U32_SPAN);
    }

    method Command() returns (c: Command)
      requires Valid()
      ensures c == CommandOf(Fields().command)
    {
      c := CommandOf(Field(content, 4, 4));
    }

    method MessageId() returns (m: nat)
      requires Valid()
      ensures m == Fields().messageId
    {
      m := Field(content, 12, 8);
    }

    method Source() returns (s: nat)
      requires Valid()
      ensures s == Fields().source
    {
      s := Field(content, 20, 16);
    }

    method Title() returns (t: Buffer)
      requires Valid()
      ensures t == Fields().title
    {
      t := content[TITLE_OFFSET..TITLE_OFFSET + TitleLen(content)];
    }

    method Data() returns (d: Buffer)
      requires Valid()
      ensures d == Fields().data
    {
      d := content[TITLE_OFFSET + TitleLen(content)..];
    }
  }
}
