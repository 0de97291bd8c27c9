/** The values the PDF handler works with, with the PDF libraries replaced by
    plain records. */
module Blocks {
  import opened Wrappers

  newtype byte = x: int | 0 <= x < 256

  /** An embedded image as `extract_image` returns it: its raw bytes and its
      file extension. */
  datatype Image = Image(data: seq<byte>, ext: string)

  /** One PDF page as the two readers see it: the text PyPDF2 extracted
      (`None` when extraction raised or returned nothing) and the images
      PyMuPDF lists for the page, in `get_images` order. */
  datatype Page = Page(rawText: Option<string>, images: seq<Image>)

  /** An entry of `docx_blocks`: `("text", t)` or `("image", (bytes, ext))`. */
  datatype Block = TextBlock(text: string) | ImageBlock(image: Image)

  /** The texts of the text blocks, in order. */
  function TextsOf(bs: seq<Block>): seq<string>
    decreases |bs|
  {
    if |bs| == 0 then []
    else TextsOf(bs[..|bs| - 1]) + (match bs[|bs| - 1]
                                    case TextBlock(t) => [t]
                                    case ImageBlock(_) => [])
  }

  /** The images of the image blocks, in order. */
  function ImagesOf(bs: seq<Block>): seq<Image>
    decreases |bs|
  {
    if |bs| == 0 then []
    else ImagesOf(bs[..|bs| - 1]) + (match bs[|bs| - 1]
                                     case TextBlock(_) => []
                                     case ImageBlock(img) => [img])
  }

  function AsImageBlocks(imgs: seq<Image>): seq<Block>
    decreases |imgs|
  {
    if |imgs| == 0 then [] else AsImageBlocks(imgs[..|imgs| - 1]) + [ImageBlock(imgs[|imgs| - 1])]
  }

  lemma {:induction false} TextsOfConcat(a: seq<Block>, b: seq<Block>)
    ensures TextsOf(a + b) == TextsOf(a) + TextsOf(b)
    decreases |b|
  {
    if |b| == 0 {
      assert a + b == a;
    } else {
      assert (a + b)[..|a + b| - 1] == a + b[..|b| - 1];
      TextsOfConcat(a, b[..|b| - 1]);
    }
  }

  lemma {:induction false} ImagesOfConcat(a: seq<Block>, b: seq<Block>)
    ensures ImagesOf(a + b) == ImagesOf(a) + ImagesOf(b)
    decreases |b|
  {
    if |b| == 0 {
      assert a + b == a;
    } else {
      assert (a + b)[..|a + b| - 1] == a + b[..|b| - 1];
      ImagesOfConcat(a, b[..|b| - 1]);
    }
  }

  lemma {:induction false} AsImageBlocksConcat(a: seq<Image>, b: seq<Image>)
    ensures AsImageBlocks(a + b) == AsImageBlocks(a) + AsImageBlocks(b)
    decreases |b|
  {
    if |b| == 0 {
      assert a + b == a;
    } else {
      assert (a + b)[..|a + b| - 1] == a + b[..|b| - 1];
      AsImageBlocksConcat(a, b[..|b| - 1]);
    }
  }

  lemma ImageBlockContents(x: Image)
    ensures ImagesOf([ImageBlock(x)]) == [x]
    ensures TextsOf([ImageBlock(x)]) == []
  {
    assert [ImageBlock(x)][..0] == [];
  }

  /** Image blocks hold exactly the given images and no text. */
  lemma {:induction false} AsImageBlocksImages(imgs: seq<Image>)
    ensures ImagesOf(AsImageBlocks(imgs)) == imgs
    decreases |imgs|
  {
    if |imgs| > 0 {
      var init, x := imgs[..|imgs| - 1], imgs[|imgs| - 1];
      var bs := AsImageBlocks(imgs);
      assert bs[..|bs| - 1] == AsImageBlocks(init);
      AsImageBlocksImages(init);
      assert ImagesOf(bs) == init + [x];
      assert imgs == init + [x];
    }
  }

  lemma {:induction false} AsImageBlocksTexts(imgs: seq<Image>)
    ensures TextsOf(AsImageBlocks(imgs)) == []
    decreases |imgs|
  {
    if |imgs| > 0 {
      var init, x := imgs[..|imgs| - 1], imgs[|imgs| - 1];
      AsImageBlocksTexts(init);
      TextsOfConcat(AsImageBlocks(init), [ImageBlock(x)]);
      ImageBlockContents(x);
    }
  }

  /** Appending blocks without images and then some image blocks adds
      exactly those images. */
  lemma ImagesAfterAppend(pre: seq<Block>, mid: seq<Block>, imgs: seq<Image>)
    requires ImagesOf(mid) == []
    ensures ImagesOf(pre + mid + AsImageBlocks(imgs)) == ImagesOf(pre) + imgs
  {
    ImagesOfConcat(pre + mid, AsImageBlocks(imgs));
    ImagesOfConcat(pre, mid);
    AsImageBlocksImages(imgs);
  }

  /** Appending some blocks and then image blocks adds exactly the texts of
      the first ones. */
  lemma TextsAfterAppend(pre: seq<Block>, mid: seq<Block>, imgs: seq<Image>)
    ensures TextsOf(pre + mid + AsImageBlocks(imgs)) == TextsOf(pre) + TextsOf(mid)
  {
    TextsOfConcat(pre + mid, AsImageBlocks(imgs));
    TextsOfConcat(pre, mid);
    AsImageBlocksTexts(imgs);
  }

  /** A block sequence is empty exactly when it has neither texts nor images. */
  lemma {:induction false} BlocksEmptyIff(bs: seq<Block>)
    ensures bs == [] <==> TextsOf(bs) == [] && ImagesOf(bs) == []
  {
    if |bs| > 0 {
      var init := bs[..|bs| - 1];
      match bs[|bs| - 1] {
        case TextBlock(t) => assert |TextsOf(bs)| == |TextsOf(init)| + 1;
        case ImageBlock(img) => assert |ImagesOf(bs)| == |ImagesOf(init)| + 1;
      }
    }
  }
}
