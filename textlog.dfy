/** The plain-text tracking log: one line per frame written by
    readVideoLogToFile and log2FramesTXT, read back by the player. */
module TextLog {
  import opened Blobs
  import opened Text

  /** One logged blob: its index in the vector and its bounding box. */
  datatype Record = Record(blob: int, x: int, y: int, width: int, height: int)

  /** What one line of the log says. */
  datatype FrameRecords = FrameRecords(frameNumber: int, records: seq<Record>)

  function RecordOf(i: nat, b: Blob): Record {
    Record(i, b.currentBoundingRect.x, b.currentBoundingRect.y,
           b.currentBoundingRect.width, b.currentBoundingRect.height)
  }

  /** The records of the blobs still being tracked, in index order. */
  function ActiveRecords(blobs: seq<Blob>): seq<Record>
    decreases |blobs|
  {
    if |blobs| == 0 then []
    else
      var i := |blobs| - 1;
      ActiveRecords(blobs[..i]) + (if blobs[i].stillBeingTracked then [RecordOf(i, blobs[i])] else [])
  }

  /** One more blob adds its record when it is still being tracked. */
  lemma ActiveRecordsSnoc(blobs: seq<Blob>)
    requires |blobs| > 0
    ensures var n := |blobs| - 1;
      ActiveRecords(blobs) == ActiveRecords(blobs[..n]) +
        (if blobs[n].stillBeingTracked then [RecordOf(n, blobs[n])] else [])
  {
  }

  /** Every record is that of a tracked blob, under the blob's own index. */
  lemma {:induction false} ActiveRecordsSound(blobs: seq<Blob>)
    ensures forall k :: 0 <= k < |ActiveRecords(blobs)| ==>
      var r := ActiveRecords(blobs)[k];
      0 <= r.blob < |blobs| && blobs[r.blob].stillBeingTracked && r == RecordOf(r.blob, blobs[r.blob])
    decreases |blobs|
  {
    if |blobs| > 0 {
      var n := |blobs| - 1;
      var pre := blobs[..n];
      ActiveRecordsSound(pre);
      ActiveRecordsSnoc(blobs);
      var rs, ps := ActiveRecords(blobs), ActiveRecords(pre);
      forall k | 0 <= k < |rs|
        ensures 0 <= rs[k].blob < |blobs| && blobs[rs[k].blob].stillBeingTracked
        ensures rs[k] == RecordOf(rs[k].blob, blobs[rs[k].blob])
      {
        if k < |ps| {
          assert rs[k] == ps[k];
          assert pre[ps[k].blob] == blobs[ps[k].blob];
        } else {
          assert rs[k] == RecordOf(n, blobs[n]);
        }
      }
    }
  }

  /** The records come in strictly increasing index order. */
  lemma {:induction false} ActiveRecordsIncreasing(blobs: seq<Blob>)
    ensures forall k, l :: 0 <= k < l < |ActiveRecords(blobs)| ==>
      ActiveRecords(blobs)[k].blob < ActiveRecords(blobs)[l].blob
    decreases |blobs|
  {
    if |blobs| > 0 {
      var n := |blobs| - 1;
      var pre := blobs[..n];
      ActiveRecordsIncreasing(pre);
      ActiveRecordsSound(pre);
      ActiveRecordsSnoc(blobs);
      var rs, ps := ActiveRecords(blobs), ActiveRecords(pre);
      forall k, l | 0 <= k < l < |rs|
        ensures rs[k].blob < rs[l].blob
      {
        assert rs[k] == ps[k];
        if l < |ps| {
          assert rs[l] == ps[l];
        } else {
          assert rs[l].blob == n;
        }
      }
    }
  }

  /** Every tracked blob has a record. */
  lemma {:induction false} ActiveRecordsComplete(blobs: seq<Blob>)
    ensures forall i :: 0 <= i < |blobs| && blobs[i].stillBeingTracked ==>
      exists k :: 0 <= k < |ActiveRecords(blobs)| && ActiveRecords(blobs)[k].blob == i
    decreases |blobs|
  {
    if |blobs| > 0 {
      var n := |blobs| - 1;
      var pre := blobs[..n];
      ActiveRecordsComplete(pre);
      ActiveRecordsSnoc(blobs);
      var rs, ps := ActiveRecords(blobs), ActiveRecords(pre);
      forall i | 0 <= i < |blobs| && blobs[i].stillBeingTracked
        ensures exists k :: 0 <= k < |rs| && rs[k].blob == i
      {
        if i < n {
          assert pre[i] == blobs[i];
          var k :| 0 <= k < |ps| && ps[k].blob == i;
          assert rs[k] == ps[k];
        } else {
          assert rs[|rs| - 1].blob == n;
        }
      }
    }
  }

  /** ActiveRecords lists exactly the tracked blobs, each with its own index
      and box, in strictly increasing index order. */
  lemma ActiveRecordsExactly(blobs: seq<Blob>)
    ensures forall k :: 0 <= k < |ActiveRecords(blobs)| ==>
      var r := ActiveRecords(blobs)[k];
      0 <= r.blob < |blobs| && blobs[r.blob].stillBeingTracked && r == RecordOf(r.blob, blobs[r.blob])
    ensures forall k, l :: 0 <= k < l < |ActiveRecords(blobs)| ==>
      ActiveRecords(blobs)[k].blob < ActiveRecords(blobs)[l].blob
    ensures forall i :: 0 <= i < |blobs| && blobs[i].stillBeingTracked ==>
      exists k :: 0 <= k < |ActiveRecords(blobs)| && ActiveRecords(blobs)[k].blob == i
  {
    ActiveRecordsSound(blobs);
    ActiveRecordsIncreasing(blobs);
    ActiveRecordsComplete(blobs);
  }

  /** "n " as `log << n << " "` writes it. */
  function Field(n: int): string {
    IntToString(n) + " "
  }

  /** The four box fields "x y w h ". */
  function BoxText(r: Record): string {
    Field(r.x) + (Field(r.y) + (Field(r.width) + Field(r.height)))
  }

  /** One record as five fields "i x y w h ". */
  function RecordText(r: Record): string {
    Field(r.blob) + BoxText(r)
  }

  /** The records, one after the other. */
  function RecordsText(rs: seq<Record>): string
    decreases |rs|
  {
    if |rs| == 0 then "" else RecordText(rs[0]) + RecordsText(rs[1..])
  }

  lemma {:induction false} RecordsTextAppend(rs: seq<Record>, r: Record)
    ensures RecordsText(rs + [r]) == RecordsText(rs) + RecordText(r)
    decreases |rs|
  {
    if |rs| == 0 {
      assert rs + [r] == [r];
      assert [r][1..] == [];
    } else {
      assert (rs + [r])[0] == rs[0];
      assert (rs + [r])[1..] == rs[1..] + [r];
      RecordsTextAppend(rs[1..], r);
    }
  }

  /** log2FramesTXT: the blobs still being tracked, then std::endl. */
  method Log2FramesTxt(blobs: seq<Blob>) returns (text: string)
    ensures text == RecordsText(ActiveRecords(blobs)) + "\n"
  {
    text := "";
    var i := 0;
    while i < |blobs|
      invariant 0 <= i <= |blobs|
      invariant text == RecordsText(ActiveRecords(blobs[..i]))
    {
      assert blobs[..i + 1][..i] == blobs[..i];
      if blobs[i].stillBeingTracked {
        var r := blobs[i].currentBoundingRect;
        var record := RecordOf(i, blobs[i]);
        assert ActiveRecords(blobs[..i + 1]) == ActiveRecords(blobs[..i]) + [record];
        RecordsTextAppend(ActiveRecords(blobs[..i]), record);
        text := text + (Field(i) + (Field(r.x) + (Field(r.y) + (Field(r.width) + Field(r.height)))));
        assert text == RecordsText(ActiveRecords(blobs[..i])) + RecordText(record);
        assert text == RecordsText(ActiveRecords(blobs[..i + 1]));
      } else {
        assert ActiveRecords(blobs[..i + 1]) == ActiveRecords(blobs[..i]) + [];
        assert ActiveRecords(blobs[..i]) + [] == ActiveRecords(blobs[..i]);
      }
      i := i + 1;
    }
    assert blobs[..i] == blobs;
    text := text + "\n";
  }

  /** The line that readVideoLogToFile writes for frame n, without its newline. */
  function FrameLine(frameNumber: int, blobs: seq<Blob>): string {
    Field(frameNumber) + RecordsText(ActiveRecords(blobs))
  }

  /** `ss >> x >> y >> width >> height` after the blob index. */
  function ReadBox(s: string): (r: Option<(int, int, int, int, string)>)
    ensures r.Some? ==> |r.value.4| < |s|
  {
    match ReadInt(s)
    case None => None
    case Some((x, s1)) =>
      match ReadInt(s1)
      case None => None
      case Some((y, s2)) =>
        match ReadInt(s2)
        case None => None
        case Some((w, s3)) =>
          match ReadInt(s3)
          case None => None
          case Some((h, s4)) => Some((x, y, w, h, s4))
  }

  /** `while (ss >> blob) { ss >> x >> y >> width >> height; ... }`: the loop
      ends when no further integer can be read. A record cut short is
      reported as None. */
  function ParseRecords(s: string): Option<seq<Record>>
    decreases |s|
  {
    match ReadInt(s)
    case None => Some([])
    case Some((blob, s1)) =>
      match ReadBox(s1)
      case None => None
      case Some((x, y, w, h, s2)) =>
        match ParseRecords(s2)
        case None => None
        case Some(rest) => Some([Record(blob, x, y, w, h)] + rest)
  }

  /** The player's reading of one line: `ss >> frameNumber`, then the records. */
  function ParseLine(s: string): Option<FrameRecords> {
    match ReadInt(s)
    case None => None
    case Some((n, s1)) =>
      match ParseRecords(s1)
      case None => None
      case Some(rs) => Some(FrameRecords(n, rs))
  }

  /** Reading one field leaves the space after it. */
  lemma ReadField(n: int, rest: string)
    ensures ReadInt(Field(n) + rest) == Some((n, " " + rest))
  {
    assert Field(n) + rest == IntToString(n) + (" " + rest);
    ReadIntOf(n, " " + rest);
  }

  lemma AppendAssoc(a: string, b: string, c: string)
    ensures (a + b) + c == a + (b + c)
  {
  }

  /** A field after the space that ends the previous one. */
  lemma ReadSpacedField(n: int, rest: string)
    ensures ReadInt(" " + (Field(n) + rest)) == Some((n, " " + rest))
  {
    ReadIntSkipsSpace(Field(n) + rest);
    ReadField(n, rest);
  }

  /** The four box fields, as `ReadBox` reads them back. */
  lemma ReadBoxOf(r: Record, rest: string)
    ensures ReadBox(" " + (BoxText(r) + rest)) == Some((r.x, r.y, r.width, r.height, " " + rest))
  {
    var t4 := Field(r.height) + rest;
    var t3 := Field(r.width) + t4;
    var t2 := Field(r.y) + t3;
    var t1 := Field(r.x) + t2;
    assert BoxText(r) + rest == t1;
    ReadSpacedField(r.x, t2);
    ReadSpacedField(r.y, t3);
    ReadSpacedField(r.width, t4);
    ReadSpacedField(r.height, rest);
  }

  lemma ReadRecord(r: Record, rest: string)
    ensures ReadInt(RecordText(r) + rest) == Some((r.blob, " " + (BoxText(r) + rest)))
  {
    AppendAssoc(Field(r.blob), BoxText(r), rest);
    ReadField(r.blob, BoxText(r) + rest);
  }

  /** One step of the reading loop, once a whole record has been read. */
  lemma ParseRecordsStep(s: string, r: Record, s1: string, s2: string)
    requires ReadInt(s) == Some((r.blob, s1))
    requires ReadBox(s1) == Some((r.x, r.y, r.width, r.height, s2))
    ensures ParseRecords(s) == match ParseRecords(s2)
      case None => None
      case Some(rest) => Some([r] + rest)
  {
  }

  lemma ParseRecordsSkipsSpace(s: string)
    ensures ParseRecords(" " + s) == ParseRecords(s)
  {
    ReadIntSkipsSpace(s);
  }

  /** A record in front of any text is read whole, and reading goes on after it. */
  lemma ParseRecordsCons(r: Record, tail: string)
    ensures ParseRecords(RecordText(r) + tail) ==
      match ParseRecords(tail)
      case None => None
      case Some(rest) => Some([r] + rest)
  {
    ReadRecord(r, tail);
    ReadBoxOf(r, tail);
    ParseRecordsStep(RecordText(r) + tail, r, " " + (BoxText(r) + tail), " " + tail);
    ParseRecordsSkipsSpace(tail);
  }

  lemma ParseRecordsOfCons(s: string, r: Record, tail: string, rest: seq<Record>)
    requires s == RecordText(r) + tail
    requires ParseRecords(tail) == Some(rest)
    ensures ParseRecords(s) == Some([r] + rest)
  {
    ParseRecordsCons(r, tail);
  }

  lemma {:induction false} ParseRecordsText(rs: seq<Record>)
    ensures ParseRecords(RecordsText(rs)) == Some(rs)
    decreases |rs|
  {
    if |rs| == 0 {
      assert ReadInt("") == None;
    } else {
      ParseRecordsText(rs[1..]);
      ParseRecordsOfCons(RecordsText(rs), rs[0], RecordsText(rs[1..]), rs[1..]);
      assert [rs[0]] + rs[1..] == rs;
    }
  }

  /** Round trip: the player reads back, from the line written for frame n,
      the frame number n and the index and box of exactly the blobs still
      being tracked, in increasing index order (see ActiveRecordsExactly). */
  lemma LogRoundTrip(frameNumber: int, blobs: seq<Blob>)
    ensures ParseLine(FrameLine(frameNumber, blobs)) == Some(FrameRecords(frameNumber, ActiveRecords(blobs)))
  {
    var rs := ActiveRecords(blobs);
    ParseRecordsText(rs);
    ParseLineOf(FrameLine(frameNumber, blobs), frameNumber, RecordsText(rs), rs);
  }

  lemma ParseLineOf(s: string, frameNumber: int, tail: string, rs: seq<Record>)
    requires s == Field(frameNumber) + tail
    requires ParseRecords(tail) == Some(rs)
    ensures ParseLine(s) == Some(FrameRecords(frameNumber, rs))
  {
    ReadField(frameNumber, tail);
    ParseRecordsSkipsSpace(tail);
  }

  lemma FieldHasNoNewline(n: int)
    ensures '\n' !in Field(n)
  {
    IntToStringIsWord(n);
    assert IsSpace('\n');
  }

  lemma {:induction false} RecordsTextHasNoNewline(rs: seq<Record>)
    ensures '\n' !in RecordsText(rs)
    decreases |rs|
  {
    if |rs| > 0 {
      RecordsTextHasNoNewline(rs[1..]);
      var r := rs[0];
      FieldHasNoNewline(r.blob);
      FieldHasNoNewline(r.x);
      FieldHasNoNewline(r.y);
      FieldHasNoNewline(r.width);
      FieldHasNoNewline(r.height);
    }
  }

  /** The frame's text is its line and one newline, and the line holds no other
      newline, so getline hands the player exactly that line. */
  lemma FrameTextIsOneLine(frameNumber: int, blobs: seq<Blob>, text: string)
    requires text == Field(frameNumber) + RecordsText(ActiveRecords(blobs)) + "\n"
    ensures text == FrameLine(frameNumber, blobs) + "\n"
    ensures '\n' !in FrameLine(frameNumber, blobs)
  {
    RecordsTextHasNoNewline(ActiveRecords(blobs));
    FieldHasNoNewline(frameNumber);
  }
}
