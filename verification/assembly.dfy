/** Building the Word document from the stored blocks (bot.py lines
    112-125): a paragraph per text block and a 5-inch-wide picture per
    image block. Writing an image to a temporary file and embedding it may
    fail; the handler logs that and goes on, so whether an image embeds is
    kept abstract as the parameter `embedOk`. */
module Assembly {
  import opened Blocks

  /** The width every picture is embedded at (`Inches(5)`). */
  const PictureWidthInches: nat := 5

  /** One element of the produced document. */
  datatype Element = Paragraph(text: string) | Picture(image: Image, widthInches: nat)

  /** The document elements for one block. */
  function BlockElements(embedOk: Image -> bool, b: Block): seq<Element> {
    match b
    case TextBlock(t) => [Paragraph(t)]
    case ImageBlock(img) => if embedOk(img) then [Picture(img, PictureWidthInches)] else []
  }

  /** The document for the whole block sequence, in block order. */
  function Assemble(embedOk: Image -> bool, bs: seq<Block>): seq<Element>
    decreases |bs|
  {
    if |bs| == 0 then [] else Assemble(embedOk, bs[..|bs| - 1]) + BlockElements(embedOk, bs[|bs| - 1])
  }

  /** The paragraph texts of a document, in order: what re-reading it gives. */
  function ParagraphsOf(doc: seq<Element>): seq<string>
    decreases |doc|
  {
    if |doc| == 0 then []
    else ParagraphsOf(doc[..|doc| - 1]) + (match doc[|doc| - 1]
                                           case Paragraph(t) => [t]
                                           case Picture(_, _) => [])
  }

  /** The pictures of a document, in order. */
  function PicturesOf(doc: seq<Element>): seq<Image>
    decreases |doc|
  {
    if |doc| == 0 then []
    else PicturesOf(doc[..|doc| - 1]) + (match doc[|doc| - 1]
                                         case Paragraph(_) => []
                                         case Picture(img, _) => [img])
  }

  /** The images that embed successfully, in order. */
  function Embeddable(embedOk: Image -> bool, imgs: seq<Image>): seq<Image>
    decreases |imgs|
  {
    if |imgs| == 0 then []
    else Embeddable(embedOk, imgs[..|imgs| - 1])
         + (if embedOk(imgs[|imgs| - 1]) then [imgs[|imgs| - 1]] else [])
  }

  lemma {:induction false} ParagraphsOfConcat(a: seq<Element>, b: seq<Element>)
    ensures ParagraphsOf(a + b) == ParagraphsOf(a) + ParagraphsOf(b)
    decreases |b|
  {
    if |b| == 0 {
      assert a + b == a;
    } else {
      assert (a + b)[..|a + b| - 1] == a + b[..|b| - 1];
      ParagraphsOfConcat(a, b[..|b| - 1]);
    }
  }

  lemma {:induction false} PicturesOfConcat(a: seq<Element>, b: seq<Element>)
    ensures PicturesOf(a + b) == PicturesOf(a) + PicturesOf(b)
    decreases |b|
  {
    if |b| == 0 {
      assert a + b == a;
    } else {
      assert (a + b)[..|a + b| - 1] == a + b[..|b| - 1];
      PicturesOfConcat(a, b[..|b| - 1]);
    }
  }

  /** Assembling two block sequences in a row gives the two documents in a row. */
  lemma {:induction false} AssembleConcat(embedOk: Image -> bool, a: seq<Block>, b: seq<Block>)
    ensures Assemble(embedOk, a + b) == Assemble(embedOk, a) + Assemble(embedOk, b)
    decreases |b|
  {
    if |b| == 0 {
      assert a + b == a;
    } else {
      var init := b[..|b| - 1];
      assert (a + b)[..|a + b| - 1] == a + init;
      AssembleConcat(embedOk, a, init);
    }
  }

  /** Block order is document order: the elements of a block come after
      those of every block before it and before those of every block after it. */
  lemma AssembleAround(embedOk: Image -> bool, pre: seq<Block>, b: Block, post: seq<Block>)
    ensures Assemble(embedOk, pre + [b] + post)
         == Assemble(embedOk, pre) + BlockElements(embedOk, b) + Assemble(embedOk, post)
  {
    AssembleConcat(embedOk, pre + [b], post);
    AssembleConcat(embedOk, pre, [b]);
    assert [b][..0] == [];
  }

  /** Round trip: re-reading the paragraphs of the document gives back the
      text blocks, complete and in order. */
  lemma {:induction false} AssembleParagraphs(embedOk: Image -> bool, bs: seq<Block>)
    ensures ParagraphsOf(Assemble(embedOk, bs)) == TextsOf(bs)
    decreases |bs|
  {
    if |bs| > 0 {
      var init, b := bs[..|bs| - 1], bs[|bs| - 1];
      AssembleParagraphs(embedOk, init);
      var els := BlockElements(embedOk, b);
      ParagraphsOfConcat(Assemble(embedOk, init), els);
      match b {
        case TextBlock(t) =>
          assert ParagraphsOf([Paragraph(t)]) == ParagraphsOf([]) + [t];
        case ImageBlock(img) =>
          if embedOk(img) {
            assert ParagraphsOf(els) == ParagraphsOf([]) + [];
          }
          assert TextsOf(bs) == TextsOf(init);
      }
    }
  }

  /** A failed image is skipped and assembly goes on: the pictures are
      exactly the embeddable images, in block order. */
  lemma {:induction false} AssemblePictures(embedOk: Image -> bool, bs: seq<Block>)
    ensures PicturesOf(Assemble(embedOk, bs)) == Embeddable(embedOk, ImagesOf(bs))
    decreases |bs|
  {
    if |bs| > 0 {
      var init, b := bs[..|bs| - 1], bs[|bs| - 1];
      AssemblePictures(embedOk, init);
      var els := BlockElements(embedOk, b);
      PicturesOfConcat(Assemble(embedOk, init), els);
      match b {
        case TextBlock(t) =>
          assert PicturesOf([Paragraph(t)]) == PicturesOf([]) + [];
          assert ImagesOf(bs) == ImagesOf(init);
        case ImageBlock(img) =>
          if embedOk(img) {
            assert PicturesOf(els) == PicturesOf([]) + [img];
          }
          var imgs := ImagesOf(bs);
          assert imgs == ImagesOf(init) + [img];
          assert imgs[..|imgs| - 1] == ImagesOf(init);
      }
    }
  }

  /** Every picture is embedded at the fixed width, and the document has one
      element per text block plus one per embeddable image. */
  lemma {:induction false} AssembleSize(embedOk: Image -> bool, bs: seq<Block>)
    ensures |Assemble(embedOk, bs)| == |TextsOf(bs)| + |Embeddable(embedOk, ImagesOf(bs))|
    ensures forall k :: 0 <= k < |Assemble(embedOk, bs)| && Assemble(embedOk, bs)[k].Picture? ==>
              Assemble(embedOk, bs)[k].widthInches == PictureWidthInches
    decreases |bs|
  {
    if |bs| > 0 {
      var init, b := bs[..|bs| - 1], bs[|bs| - 1];
      AssembleSize(embedOk, init);
      var prev, els := Assemble(embedOk, init), BlockElements(embedOk, b);
      assert Assemble(embedOk, bs) == prev + els;
      match b {
        case TextBlock(t) =>
          assert ImagesOf(bs) == ImagesOf(init);
        case ImageBlock(img) =>
          var imgs := ImagesOf(bs);
          assert imgs == ImagesOf(init) + [img];
          assert imgs[..|imgs| - 1] == ImagesOf(init);
          assert TextsOf(bs) == TextsOf(init);
      }
      forall k | 0 <= k < |prev + els| && (prev + els)[k].Picture?
        ensures (prev + els)[k].widthInches == PictureWidthInches
      {
        if k < |prev| { assert (prev + els)[k] == prev[k]; }
      }
    }
  }
}
