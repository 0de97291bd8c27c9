/** Sending the blocks back into the chat (bot.py lines 82-91): text blocks
    are cut into messages of at most 4096 characters, images are sent as
    photos of their raw bytes. The transport itself is not modelled; the
    result is the list of calls the handler makes, in order. */
module Delivery {
  import opened Blocks

  /** Telegram's limit on the length of one text message, as used by the handler. */
  const MaxMessageLength: nat := 4096

  /** One call to the chat transport. */
  datatype Outgoing = SendText(text: string) | SendPhoto(photo: seq<byte>)

  function Concat(ss: seq<string>): string
    decreases |ss|
  {
    if |ss| == 0 then [] else ss[0] + Concat(ss[1..])
  }

  lemma {:induction false} ConcatAppend(a: seq<string>, b: seq<string>)
    ensures Concat(a + b) == Concat(a) + Concat(b)
    decreases |a|
  {
    if |a| == 0 {
      assert a + b == b;
    } else {
      assert (a + b)[1..] == a[1..] + b;
      ConcatAppend(a[1..], b);
    }
  }

  /** The slices `t[i:i+4096]` for `i` in `range(i0, len(t), 4096)`; Python's
      slice stops at the end of the text. */
  function ChunksFrom(t: string, i: nat): (r: seq<string>)
    requires i <= |t|
    ensures Concat(r) == t[i..]
    ensures forall k :: 0 <= k < |r| ==> 0 < |r[k]| <= MaxMessageLength
    ensures forall k :: 0 <= k < |r| - 1 ==> |r[k]| == MaxMessageLength
    decreases |t| - i
  {
    if i == |t| then []
    else if |t| - i <= MaxMessageLength then [t[i..]]
    else
      var rest := ChunksFrom(t, i + MaxMessageLength);
      assert t[i..] == t[i..i + MaxMessageLength] + t[i + MaxMessageLength..];
      [t[i..i + MaxMessageLength]] + rest
  }

  /** There are as many chunks as `range(i, len(t), 4096)` has elements:
      the remaining length divided by 4096, rounded up. */
  lemma {:induction false} ChunksCount(t: string, i: nat)
    requires i <= |t|
    ensures |ChunksFrom(t, i)| == (|t| - i + MaxMessageLength - 1) / MaxMessageLength
    decreases |t| - i
  {
    if |t| - i > MaxMessageLength {
      ChunksCount(t, i + MaxMessageLength);
    }
  }

  /** The messages one text block becomes. */
  function Chunks(t: string): seq<string> {
    ChunksFrom(t, 0)
  }

  /** The chunks are exactly the 4096-character windows of the text, the
      last one cut short by the end of the text. */
  lemma {:induction false} ChunksAreWindows(t: string, i: nat, k: nat)
    requires i <= |t|
    requires k < |ChunksFrom(t, i)|
    ensures i + k * MaxMessageLength < |t|
    ensures ChunksFrom(t, i)[k]
         == t[i + k * MaxMessageLength .. if i + (k + 1) * MaxMessageLength <= |t| then i + (k + 1) * MaxMessageLength else |t|]
    decreases k
  {
    if k > 0 {
      assert |t| - i > MaxMessageLength;
      var j := i + MaxMessageLength;
      ChunksAreWindows(t, j, k - 1);
      assert ChunksFrom(t, i)[k] == ChunksFrom(t, j)[k - 1];
      assert j + (k - 1) * MaxMessageLength == i + k * MaxMessageLength;
      assert j + k * MaxMessageLength == i + (k + 1) * MaxMessageLength;
    }
  }

  /** A 10 000-character text goes out as messages of 4096, 4096 and 1808
      characters. */
  lemma ExampleTenThousand(t: string)
    requires |t| == 10000
    ensures var r := Chunks(t);
            |r| == 3 && |r[0]| == 4096 && |r[1]| == 4096 && |r[2]| == 1808
  {
    var r := Chunks(t);
    ChunksAreWindows(t, 0, 2);
  }

  /** The transport calls for one block. */
  function BlockMessages(b: Block): seq<Outgoing> {
    match b
    case TextBlock(t) => TextMessages(Chunks(t))
    case ImageBlock(img) => [SendPhoto(img.data)]
  }

  function TextMessages(chunks: seq<string>): seq<Outgoing>
    decreases |chunks|
  {
    if |chunks| == 0 then [] else [SendText(chunks[0])] + TextMessages(chunks[1..])
  }

  /** The transport calls for the whole block sequence, in block order. */
  function Dispatch(bs: seq<Block>): seq<Outgoing>
    decreases |bs|
  {
    if |bs| == 0 then [] else BlockMessages(bs[0]) + Dispatch(bs[1..])
  }

  /** Dispatching two block sequences in a row makes the two call lists in a row. */
  lemma {:induction false} DispatchConcat(a: seq<Block>, b: seq<Block>)
    ensures Dispatch(a + b) == Dispatch(a) + Dispatch(b)
    decreases |a|
  {
    if |a| == 0 {
      assert a + b == b;
    } else {
      assert (a + b)[1..] == a[1..] + b;
      DispatchConcat(a[1..], b);
    }
  }

  /** Block order is sending order: the calls for a block come after those
      of every block before it and before those of every block after it. */
  lemma DispatchAround(pre: seq<Block>, b: Block, post: seq<Block>)
    ensures Dispatch(pre + [b] + post) == Dispatch(pre) + BlockMessages(b) + Dispatch(post)
  {
    DispatchConcat(pre + [b], post);
    DispatchConcat(pre, [b]);
    DispatchSingle(b);
  }

  lemma DispatchSingle(b: Block)
    ensures Dispatch([b]) == BlockMessages(b)
  {
    assert [b][1..] == [];
  }

  /** Dispatching one more block appends its calls. */
  lemma DispatchSnoc(bs: seq<Block>, b: Block)
    ensures Dispatch(bs + [b]) == Dispatch(bs) + BlockMessages(b)
  {
    DispatchConcat(bs, [b]);
    DispatchSingle(b);
  }

  /** The text carried by the text messages, joined. */
  function SentText(ms: seq<Outgoing>): string
    decreases |ms|
  {
    if |ms| == 0 then []
    else (match ms[0] case SendText(t) => t case SendPhoto(_) => []) + SentText(ms[1..])
  }

  /** The photos sent, in order. */
  function SentPhotos(ms: seq<Outgoing>): seq<seq<byte>>
    decreases |ms|
  {
    if |ms| == 0 then []
    else (match ms[0] case SendText(_) => [] case SendPhoto(p) => [p]) + SentPhotos(ms[1..])
  }

  predicate MessagesFit(ms: seq<Outgoing>) {
    forall k :: 0 <= k < |ms| && ms[k].SendText? ==> 0 < |ms[k].text| <= MaxMessageLength
  }

  function ImageData(imgs: seq<Image>): seq<seq<byte>>
    decreases |imgs|
  {
    if |imgs| == 0 then [] else ImageData(imgs[..|imgs| - 1]) + [imgs[|imgs| - 1].data]
  }

  lemma SentConcat(a: seq<Outgoing>, b: seq<Outgoing>)
    ensures SentText(a + b) == SentText(a) + SentText(b)
    ensures SentPhotos(a + b) == SentPhotos(a) + SentPhotos(b)
  {
    SentTextConcat(a, b);
    SentPhotosConcat(a, b);
  }

  lemma {:induction false} SentTextConcat(a: seq<Outgoing>, b: seq<Outgoing>)
    ensures SentText(a + b) == SentText(a) + SentText(b)
    decreases |a|
  {
    if |a| == 0 {
      assert a + b == b;
    } else {
      assert (a + b)[1..] == a[1..] + b;
      SentTextConcat(a[1..], b);
    }
  }

  lemma {:induction false} SentPhotosConcat(a: seq<Outgoing>, b: seq<Outgoing>)
    ensures SentPhotos(a + b) == SentPhotos(a) + SentPhotos(b)
    decreases |a|
  {
    if |a| == 0 {
      assert a + b == b;
    } else {
      assert (a + b)[1..] == a[1..] + b;
      SentPhotosConcat(a[1..], b);
    }
  }

  lemma {:induction false} TextMessagesCarry(chunks: seq<string>)
    ensures SentText(TextMessages(chunks)) == Concat(chunks)
    ensures SentPhotos(TextMessages(chunks)) == []
    ensures |TextMessages(chunks)| == |chunks|
    ensures forall k :: 0 <= k < |chunks| ==> TextMessages(chunks)[k] == SendText(chunks[k])
    decreases |chunks|
  {
    if |chunks| > 0 {
      TextMessagesCarry(chunks[1..]);
      SentConcat([SendText(chunks[0])], TextMessages(chunks[1..]));
    }
  }

  /** Delivery loses and reorders no text: the text messages, joined, are
      the texts of the text blocks, joined, in block order. */
  lemma {:induction false} DispatchCarriesTexts(bs: seq<Block>)
    ensures SentText(Dispatch(bs)) == Concat(TextsOf(bs))
    decreases |bs|
  {
    if |bs| > 0 {
      var init, b := bs[..|bs| - 1], bs[|bs| - 1];
      assert bs == init + [b];
      DispatchSnoc(init, b);
      DispatchCarriesTexts(init);
      SentTextConcat(Dispatch(init), BlockMessages(b));
      match b {
        case TextBlock(t) =>
          TextMessagesCarry(Chunks(t));
          ConcatAppend(TextsOf(init), [t]);
          assert Concat([t]) == t;
        case ImageBlock(img) =>
          assert SentText(BlockMessages(b)) == [];
          assert TextsOf(bs) == TextsOf(init);
      }
    }
  }

  /** The photos are the images' bytes, in block order. */
  lemma {:induction false} DispatchCarriesImages(bs: seq<Block>)
    ensures SentPhotos(Dispatch(bs)) == ImageData(ImagesOf(bs))
    decreases |bs|
  {
    if |bs| > 0 {
      var init, b := bs[..|bs| - 1], bs[|bs| - 1];
      assert bs == init + [b];
      DispatchSnoc(init, b);
      DispatchCarriesImages(init);
      SentPhotosConcat(Dispatch(init), BlockMessages(b));
      match b {
        case TextBlock(t) =>
          TextMessagesCarry(Chunks(t));
          assert ImagesOf(bs) == ImagesOf(init);
        case ImageBlock(img) =>
          assert SentPhotos(BlockMessages(b)) == [img.data];
          assert ImageData(ImagesOf(bs)) == ImageData(ImagesOf(init)) + [img.data];
      }
    }
  }

  /** Every text message is non-empty and within the length limit. */
  lemma {:induction false} DispatchFits(bs: seq<Block>)
    ensures MessagesFit(Dispatch(bs))
    decreases |bs|
  {
    if |bs| > 0 {
      var init, b := bs[..|bs| - 1], bs[|bs| - 1];
      assert bs == init + [b];
      DispatchSnoc(init, b);
      DispatchFits(init);
      var prev: seq<Outgoing>, last: seq<Outgoing> := Dispatch(init), BlockMessages(b);
      if b.TextBlock? {
        TextMessagesCarry(Chunks(b.text));
      }
      forall k | 0 <= k < |prev + last| && (prev + last)[k].SendText?
        ensures 0 < |(prev + last)[k].text| <= MaxMessageLength
      {
        if k >= |prev| {
          assert (prev + last)[k] == last[k - |prev|];
        } else {
          assert (prev + last)[k] == prev[k];
        }
      }
    }
  }
}
