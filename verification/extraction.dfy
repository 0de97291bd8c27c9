/** Block-sequence construction (bot.py lines 50-76): pages are visited in
    order; each contributes its normalised text, when non-empty, and then its
    images whose hash has not been seen earlier in the same run. Python's
    `hash(bytes)` is kept abstract: it is the parameter `hash`. */
module Extraction {
  import opened Wrappers
  import opened TextNormalization
  import opened Blocks

  /** The state of the page loop: `docx_blocks` and `sent_hashes`. */
  datatype RunState = RunState(blocks: seq<Block>, seen: set<int>)

  /** The text of a page after normalisation; a failed extraction gives the
      empty string, which the handler then skips. */
  function PageText(isWord: char -> bool, p: Page): string {
    match p.rawText
    case None => []
    case Some(t) => Normalize(isWord, t)
  }

  /** The text block a page contributes: one when its text is non-empty. */
  function TextPart(isWord: char -> bool, p: Page): seq<Block> {
    var t := PageText(isWord, p);
    if t == [] then [] else [TextBlock(t)]
  }

  lemma TextPartContents(isWord: char -> bool, p: Page)
    ensures TextsOf(TextPart(isWord, p)) == (if PageText(isWord, p) == [] then [] else [PageText(isWord, p)])
    ensures ImagesOf(TextPart(isWord, p)) == []
  {
    var t := PageText(isWord, p);
    if t != [] {
      assert TextsOf([TextBlock(t)]) == TextsOf([]) + [t];
      assert ImagesOf([TextBlock(t)]) == ImagesOf([]) + [];
    }
  }

  /** One pass of the inner image loop. */
  function StepImage(hash: seq<byte> -> int, st: RunState, img: Image): RunState {
    var h := hash(img.data);
    if h !in st.seen then RunState(st.blocks + [ImageBlock(img)], st.seen + {h}) else st
  }

  function StepImages(hash: seq<byte> -> int, st: RunState, imgs: seq<Image>): RunState
    decreases |imgs|
  {
    if |imgs| == 0 then st
    else StepImage(hash, StepImages(hash, st, imgs[..|imgs| - 1]), imgs[|imgs| - 1])
  }

  /** One pass of the page loop: the text first, then the images. */
  function StepPage(isWord: char -> bool, hash: seq<byte> -> int, st: RunState, p: Page): RunState {
    StepImages(hash, RunState(st.blocks + TextPart(isWord, p), st.seen), p.images)
  }

  /** The loop state after the given pages, starting from no blocks and no hashes. */
  function RunPages(isWord: char -> bool, hash: seq<byte> -> int, pages: seq<Page>): RunState
    decreases |pages|
  {
    if |pages| == 0 then RunState([], {})
    else StepPage(isWord, hash, RunPages(isWord, hash, pages[..|pages| - 1]), pages[|pages| - 1])
  }

  /** `docx_blocks` at the end of the page loop. */
  function ExtractBlocks(isWord: char -> bool, hash: seq<byte> -> int, pages: seq<Page>): seq<Block> {
    RunPages(isWord, hash, pages).blocks
  }

  // ---------------------------------------------------------------------
  // Reference definitions, stated without the running set
  // ---------------------------------------------------------------------

  /** Every image of the document, page by page, each page in `get_images` order. */
  function AllImages(pages: seq<Page>): seq<Image>
    decreases |pages|
  {
    if |pages| == 0 then [] else AllImages(pages[..|pages| - 1]) + pages[|pages| - 1].images
  }

  /** The non-empty normalised page texts, page by page. */
  function PageTexts(isWord: char -> bool, pages: seq<Page>): seq<string>
    decreases |pages|
  {
    if |pages| == 0 then []
    else
      var t := PageText(isWord, pages[|pages| - 1]);
      PageTexts(isWord, pages[..|pages| - 1]) + (if t == [] then [] else [t])
  }

  /** The hashes of the given images. */
  function Hashes(hash: seq<byte> -> int, imgs: seq<Image>): set<int>
    decreases |imgs|
  {
    if |imgs| == 0 then {} else Hashes(hash, imgs[..|imgs| - 1]) + {hash(imgs[|imgs| - 1].data)}
  }

  /** No image before position `k` has the same hash as the one at `k`. */
  predicate IsFirst(hash: seq<byte> -> int, imgs: seq<Image>, k: nat)
    requires k < |imgs|
  {
    hash(imgs[k].data) !in Hashes(hash, imgs[..k])
  }

  /** The images of `imgs` whose hash is neither in `seen` nor shared with an
      earlier image of `imgs`, in order. */
  function FreshImages(hash: seq<byte> -> int, seen: set<int>, imgs: seq<Image>): seq<Image>
    decreases |imgs|
  {
    if |imgs| == 0 then []
    else
      var k := |imgs| - 1;
      FreshImages(hash, seen, imgs[..k])
        + (if hash(imgs[k].data) !in seen && hash(imgs[k].data) !in Hashes(hash, imgs[..k])
           then [imgs[k]] else [])
  }

  /** First-occurrence deduplication: the images whose hash did not occur earlier. */
  function FirstOccurrences(hash: seq<byte> -> int, imgs: seq<Image>): seq<Image> {
    FreshImages(hash, {}, imgs)
  }

  // ---------------------------------------------------------------------
  // The loop against the reference definitions
  // ---------------------------------------------------------------------

  /** A hash is among the hashes of `imgs` exactly when some image has it. */
  lemma {:induction false} HashesMembers(hash: seq<byte> -> int, imgs: seq<Image>, h: int)
    ensures h in Hashes(hash, imgs) <==> exists k :: 0 <= k < |imgs| && hash(imgs[k].data) == h
    decreases |imgs|
  {
    if |imgs| > 0 {
      var n := |imgs| - 1;
      var init := imgs[..n];
      HashesMembers(hash, init, h);
      if h in Hashes(hash, init) {
        var k :| 0 <= k < n && hash(init[k].data) == h;
        assert imgs[k] == init[k];
      }
      if exists k :: 0 <= k < |imgs| && hash(imgs[k].data) == h {
        var k :| 0 <= k < |imgs| && hash(imgs[k].data) == h;
        if k < n {
          assert init[k] == imgs[k];
        }
      }
    }
  }

  /** The first-occurrence test read literally: no earlier image has the same hash. */
  lemma IsFirstMeans(hash: seq<byte> -> int, imgs: seq<Image>, k: nat)
    requires k < |imgs|
    ensures IsFirst(hash, imgs, k) <==> forall j :: 0 <= j < k ==> hash(imgs[j].data) != hash(imgs[k].data)
  {
    var init := imgs[..k];
    HashesMembers(hash, init, hash(imgs[k].data));
    assert forall j :: 0 <= j < k ==> init[j] == imgs[j];
  }

  lemma {:induction false} HashesConcat(hash: seq<byte> -> int, a: seq<Image>, b: seq<Image>)
    ensures Hashes(hash, a + b) == Hashes(hash, a) + Hashes(hash, b)
    decreases |b|
  {
    if |b| == 0 {
      assert a + b == a;
    } else {
      var ab := a + b;
      assert ab[..|ab| - 1] == a + b[..|b| - 1];
      HashesConcat(hash, a, b[..|b| - 1]);
    }
  }

  /** The inner image loop only appends: it adds the fresh images, in order,
      and records the hashes of all images it looked at. */
  lemma {:induction false} StepImagesAppends(hash: seq<byte> -> int, b: seq<Block>, seen: set<int>, imgs: seq<Image>)
    ensures StepImages(hash, RunState(b, seen), imgs)
         == RunState(b + AsImageBlocks(FreshImages(hash, seen, imgs)), seen + Hashes(hash, imgs))
    decreases |imgs|
  {
    if |imgs| == 0 {
      assert b + AsImageBlocks([]) == b;
    } else {
      var k := |imgs| - 1;
      var init, x := imgs[..k], imgs[k];
      StepImagesAppends(hash, b, seen, init);
      var prev := FreshImages(hash, seen, init);
      var h := hash(x.data);
      assert Hashes(hash, imgs) == Hashes(hash, init) + {h};
      if h !in seen + Hashes(hash, init) {
        assert FreshImages(hash, seen, imgs) == prev + [x];
        AsImageBlocksConcat(prev, [x]);
        assert AsImageBlocks([x]) == [ImageBlock(x)] by {
          assert [x][..0] == [];
        }
        assert b + AsImageBlocks(prev + [x]) == b + AsImageBlocks(prev) + [ImageBlock(x)];
      } else {
        assert FreshImages(hash, seen, imgs) == prev;
        assert seen + Hashes(hash, imgs) == seen + Hashes(hash, init);
      }
    }
  }

  /** Deduplicating a concatenation: the second part keeps only what is new
      with respect to the first. */
  lemma {:induction false} FreshImagesConcat(hash: seq<byte> -> int, seen: set<int>, a: seq<Image>, b: seq<Image>)
    ensures FreshImages(hash, seen, a + b)
         == FreshImages(hash, seen, a) + FreshImages(hash, seen + Hashes(hash, a), b)
    decreases |b|
  {
    if |b| == 0 {
      assert a + b == a;
    } else {
      var k := |b| - 1;
      var init, x := b[..k], b[k];
      var ab := a + b;
      assert ab[..|ab| - 1] == a + init;
      assert ab[|ab| - 1] == x;
      FreshImagesConcat(hash, seen, a, init);
      HashesConcat(hash, a, init);
    }
  }

  /** One more page: the state after it is the state before it, extended by
      the page's text block and its new images, with the page's hashes added. */
  lemma StepPageAppends(isWord: char -> bool, hash: seq<byte> -> int, st: RunState, p: Page)
    ensures StepPage(isWord, hash, st, p)
         == RunState(st.blocks + TextPart(isWord, p) + AsImageBlocks(FreshImages(hash, st.seen, p.images)),
                     st.seen + Hashes(hash, p.images))
  {
    StepImagesAppends(hash, st.blocks + TextPart(isWord, p), st.seen, p.images);
  }

  lemma StepPageTexts(isWord: char -> bool, hash: seq<byte> -> int, st: RunState, p: Page)
    ensures TextsOf(StepPage(isWord, hash, st, p).blocks)
         == TextsOf(st.blocks) + (if PageText(isWord, p) == [] then [] else [PageText(isWord, p)])
  {
    var tp := TextPart(isWord, p);
    var newImgs := FreshImages(hash, st.seen, p.images);
    StepPageAppends(isWord, hash, st, p);
    assert StepPage(isWord, hash, st, p).blocks == st.blocks + tp + AsImageBlocks(newImgs);
    TextPartContents(isWord, p);
    TextsAfterAppend(st.blocks, tp, newImgs);
  }

  lemma StepPageImages(isWord: char -> bool, hash: seq<byte> -> int, st: RunState, p: Page)
    ensures ImagesOf(StepPage(isWord, hash, st, p).blocks)
         == ImagesOf(st.blocks) + FreshImages(hash, st.seen, p.images)
  {
    var tp := TextPart(isWord, p);
    var newImgs := FreshImages(hash, st.seen, p.images);
    StepPageAppends(isWord, hash, st, p);
    assert StepPage(isWord, hash, st, p).blocks == st.blocks + tp + AsImageBlocks(newImgs);
    TextPartContents(isWord, p);
    ImagesAfterAppend(st.blocks, tp, newImgs);
  }

  /** The running set holds the hashes of every image seen so far. */
  lemma {:induction false} RunPagesSeen(isWord: char -> bool, hash: seq<byte> -> int, pages: seq<Page>)
    ensures RunPages(isWord, hash, pages).seen == Hashes(hash, AllImages(pages))
    decreases |pages|
  {
    if |pages| > 0 {
      var init, p := pages[..|pages| - 1], pages[|pages| - 1];
      RunPagesSeen(isWord, hash, init);
      StepPageAppends(isWord, hash, RunPages(isWord, hash, init), p);
      HashesConcat(hash, AllImages(init), p.images);
    }
  }

  /** The text blocks built so far are the non-empty page texts. */
  lemma {:induction false} RunPagesTexts(isWord: char -> bool, hash: seq<byte> -> int, pages: seq<Page>)
    ensures TextsOf(RunPages(isWord, hash, pages).blocks) == PageTexts(isWord, pages)
    decreases |pages|
  {
    if |pages| > 0 {
      var init, p := pages[..|pages| - 1], pages[|pages| - 1];
      RunPagesTexts(isWord, hash, init);
      StepPageTexts(isWord, hash, RunPages(isWord, hash, init), p);
    }
  }

  /** The image blocks built so far are the first occurrences. */
  lemma {:induction false} RunPagesImages(isWord: char -> bool, hash: seq<byte> -> int, pages: seq<Page>)
    ensures ImagesOf(RunPages(isWord, hash, pages).blocks) == FirstOccurrences(hash, AllImages(pages))
    decreases |pages|
  {
    if |pages| > 0 {
      var init, p := pages[..|pages| - 1], pages[|pages| - 1];
      RunPagesImages(isWord, hash, init);
      RunPagesSeen(isWord, hash, init);
      StepPageImages(isWord, hash, RunPages(isWord, hash, init), p);
      FreshImagesConcat(hash, {}, AllImages(init), p.images);
      assert {} + Hashes(hash, AllImages(init)) == Hashes(hash, AllImages(init));
    }
  }

  // ---------------------------------------------------------------------
  // The properties of the extracted block sequence
  // ---------------------------------------------------------------------

  /** Block order follows the pages: adding a page appends, after the blocks
      of the earlier pages, that page's text block (if any) and then its
      images whose hash no earlier image had, in `get_images` order. */
  lemma ExtractAppendPage(isWord: char -> bool, hash: seq<byte> -> int, pages: seq<Page>, p: Page)
    ensures ExtractBlocks(isWord, hash, pages + [p])
         == ExtractBlocks(isWord, hash, pages) + TextPart(isWord, p)
            + AsImageBlocks(FreshImages(hash, Hashes(hash, AllImages(pages)), p.images))
  {
    var all := pages + [p];
    assert all[..|all| - 1] == pages;
    StepPageAppends(isWord, hash, RunPages(isWord, hash, pages), p);
    RunPagesSeen(isWord, hash, pages);
  }

  /** The text blocks are exactly the non-empty normalised page texts, in page
      order, so there are at most as many text blocks as pages. */
  lemma ExtractTexts(isWord: char -> bool, hash: seq<byte> -> int, pages: seq<Page>)
    ensures TextsOf(ExtractBlocks(isWord, hash, pages)) == PageTexts(isWord, pages)
    ensures |TextsOf(ExtractBlocks(isWord, hash, pages))| <= |pages|
  {
    RunPagesTexts(isWord, hash, pages);
    PageTextsCount(isWord, pages);
  }

  lemma {:induction false} PageTextsCount(isWord: char -> bool, pages: seq<Page>)
    ensures |PageTexts(isWord, pages)| <= |pages|
    decreases |pages|
  {
    if |pages| > 0 {
      PageTextsCount(isWord, pages[..|pages| - 1]);
    }
  }

  /** An image is emitted exactly when its hash did not occur earlier in the
      run, on the same page or an earlier one: the first occurrence wins. */
  lemma ExtractImages(isWord: char -> bool, hash: seq<byte> -> int, pages: seq<Page>)
    ensures ImagesOf(ExtractBlocks(isWord, hash, pages)) == FirstOccurrences(hash, AllImages(pages))
  {
    RunPagesImages(isWord, hash, pages);
  }

  /** A page contributes a text block exactly when its extraction succeeded
      and its text is not whitespace only (with Python's `\w`). */
  lemma PageContributesText(isWord: char -> bool, p: Page)
    requires WordClassExcludesSeparators(isWord)
    ensures TextPart(isWord, p) != [] <==> p.rawText.Some? && !AllWhitespace(p.rawText.value)
  {
    if p.rawText.Some? {
      NormalizeEmptyIff(isWord, p.rawText.value);
    }
  }

  /** No two deduplicated images share a hash, and none has a hash from `seen`. */
  lemma {:induction false} FreshImagesDistinct(hash: seq<byte> -> int, seen: set<int>, imgs: seq<Image>)
    ensures forall i, j :: 0 <= i < j < |FreshImages(hash, seen, imgs)| ==>
              hash(FreshImages(hash, seen, imgs)[i].data) != hash(FreshImages(hash, seen, imgs)[j].data)
    ensures forall i :: 0 <= i < |FreshImages(hash, seen, imgs)| ==>
              var h := hash(FreshImages(hash, seen, imgs)[i].data);
              h !in seen && h in Hashes(hash, imgs)
    decreases |imgs|
  {
    if |imgs| > 0 {
      var k := |imgs| - 1;
      var init, x := imgs[..k], imgs[k];
      FreshImagesDistinct(hash, seen, init);
      var prev := FreshImages(hash, seen, init);
      var r := FreshImages(hash, seen, imgs);
      assert forall i :: 0 <= i < |prev| ==> hash(prev[i].data) in Hashes(hash, init);
      if hash(x.data) !in seen && hash(x.data) !in Hashes(hash, init) {
        assert r == prev + [x];
        forall i, j | 0 <= i < j < |r|
          ensures hash(r[i].data) != hash(r[j].data)
        {
          assert r[i] == prev[i];
          if j < |prev| {
            assert r[j] == prev[j];
          }
        }
        forall i | 0 <= i < |r|
          ensures hash(r[i].data) !in seen && hash(r[i].data) in Hashes(hash, imgs)
        {
          if i < |prev| {
            assert r[i] == prev[i];
          }
        }
      } else {
        assert r == prev;
      }
    }
  }

  lemma ExtractImagesDistinct(isWord: char -> bool, hash: seq<byte> -> int, pages: seq<Page>)
    ensures var imgs := ImagesOf(ExtractBlocks(isWord, hash, pages));
            forall i, j :: 0 <= i < j < |imgs| ==> hash(imgs[i].data) != hash(imgs[j].data)
  {
    ExtractImages(isWord, hash, pages);
    FreshImagesDistinct(hash, {}, AllImages(pages));
  }

  /** Each first occurrence is emitted, and everything emitted is a first
      occurrence. */
  lemma {:induction false} FirstOccurrencesMembers(hash: seq<byte> -> int, imgs: seq<Image>)
    ensures forall k :: 0 <= k < |imgs| && IsFirst(hash, imgs, k) ==> imgs[k] in FirstOccurrences(hash, imgs)
    ensures forall x :: x in FirstOccurrences(hash, imgs) ==>
              exists k :: 0 <= k < |imgs| && imgs[k] == x && IsFirst(hash, imgs, k)
    decreases |imgs|
  {
    if |imgs| > 0 {
      var n := |imgs| - 1;
      var init := imgs[..n];
      FirstOccurrencesMembers(hash, init);
      var prev := FirstOccurrences(hash, init);
      var r := FirstOccurrences(hash, imgs);
      assert r == prev + (if IsFirst(hash, imgs, n) then [imgs[n]] else []);
      forall k | 0 <= k < n
        ensures IsFirst(hash, imgs, k) <==> IsFirst(hash, init, k)
      {
        assert imgs[..k] == init[..k];
      }
      forall k | 0 <= k < |imgs| && IsFirst(hash, imgs, k)
        ensures imgs[k] in r
      {
        if k < n {
          assert init[k] == imgs[k] && IsFirst(hash, init, k);
        }
      }
      forall x | x in r
        ensures exists k :: 0 <= k < |imgs| && imgs[k] == x && IsFirst(hash, imgs, k)
      {
        if x in prev {
          var k :| 0 <= k < |init| && init[k] == x && IsFirst(hash, init, k);
          assert imgs[k] == x && IsFirst(hash, imgs, k);
        } else {
          assert x == imgs[n] && IsFirst(hash, imgs, n);
        }
      }
    }
  }

  /** Two identical images on different pages give a single image block, at
      the position of the first. */
  lemma ExampleDuplicateAcrossPages(isWord: char -> bool, hash: seq<byte> -> int, img: Image)
    ensures ExtractBlocks(isWord, hash, [Page(None, [img]), Page(None, [img])]) == [ImageBlock(img)]
  {
    var p := Page(None, [img]);
    assert TextPart(isWord, p) == [];
    assert [p] == [] + [p] && [p, p] == [p] + [p];
    assert AllImages([p]) == [img] by {
      assert [p][..0] == [];
    }
    assert [img][..0] == [];
    assert FreshImages(hash, {}, [img]) == [img];
    assert FreshImages(hash, {hash(img.data)}, [img]) == [];
    assert Hashes(hash, []) == {};
    assert Hashes(hash, [img]) == {hash(img.data)};
    ExtractAppendPage(isWord, hash, [], p);
    ExtractAppendPage(isWord, hash, [p], p);
    assert AsImageBlocks([img]) == [ImageBlock(img)];
  }

  /** Deduplication never drops everything: some image survives when there is one. */
  lemma FirstOccurrencesEmptyIff(hash: seq<byte> -> int, imgs: seq<Image>)
    ensures FirstOccurrences(hash, imgs) == [] <==> imgs == []
  {
    if |imgs| > 0 {
      FirstOccurrencesMembers(hash, imgs);
      assert IsFirst(hash, imgs, 0);
      assert imgs[0] in FirstOccurrences(hash, imgs);
    }
  }
}
