/** The per-document handler: it ignores housekeeping files, runs the three
    checks on every frame in turn, writes every page it counts as modified
    and reports modified and unmodified pages separately. */
module Handler {
  import opened Raster
  import opened Checks
  import opened SplitKeys

  /** Keys containing this name are file-system housekeeping files. */
  const HousekeepingMarker: string := ".DS_Store"

  /** One entry of the report: where a page is stored and its 1-based number. */
  datatype PageRef = PageRef(bucket: string, key: string, pageNum: nat)

  /** One object written to the store: where, and the page image encoded there. */
  datatype Put = Put(ref: PageRef, image: Image)

  /** The handler's outcome: the early answer for housekeeping files, the
      report, or the exception that left the handler. */
  datatype Response =
    | Ignored
    | Success(bucket: string, orig: string, pageCount: nat, modifiedPages: seq<PageRef>, pages: seq<PageRef>)
    | Raised(fault: Fault)

  /** Python's `t in s` on strings. */
  predicate Contains(s: string, t: string)
    decreases |s|
  {
    t <= s || (s != [] && Contains(s[1..], t))
  }

  /** `t` occurs in `s` exactly when some suffix of `s` starts with `t`. */
  lemma {:induction false} ContainsIff(s: string, t: string)
    ensures Contains(s, t) <==> exists i :: 0 <= i <= |s| && t <= s[i..]
    decreases |s|
  {
    if s == [] {
      if t <= s {
        assert t <= s[0..];
      }
    } else {
      ContainsIff(s[1..], t);
      if Contains(s, t) {
        if t <= s {
          assert t <= s[0..];
        } else {
          var i :| 0 <= i <= |s| - 1 && t <= s[1..][i..];
          assert s[1..][i..] == s[i + 1..];
        }
      }
      if exists i :: 0 <= i <= |s| && t <= s[i..] {
        var i :| 0 <= i <= |s| && t <= s[i..];
        if 0 < i {
          assert s[1..][i - 1..] == s[i..];
        }
      }
    }
  }

  // ---------------------------------------------------------------------
  // Specification of one page

  /** Which checks changed a page, and the page after all three. */
  datatype Fixed = Fixed(modeFixed: bool, dimenFixed: bool, memFixed: bool, image: Image)

  /** The checks in the handler's order (mode, then dimension, then memory),
      each applied to the page the previous one produced. */
  function FixPage(frame: Image, encode: Image -> nat, maxBytes: nat): (r: Result<Fixed>)
    ensures r.Err? ==> frame.width == 0 || frame.height == 0 || Max(frame.width, frame.height) > MaxDimension
    ensures r.Ok? ==> (r.value.modeFixed <==> frame.mode == BilevelMode)
    ensures r.Ok? ==> (r.value.dimenFixed <==> Max(frame.width, frame.height) > MaxDimension)
    ensures r.Ok? ==> r.value.image.mode != BilevelMode
    ensures r.Ok? ==> r.value.image.width <= MaxDimension && r.value.image.height <= MaxDimension
    ensures r.Ok? ==> r.value.image.width <= frame.width && r.value.image.height <= frame.height
    ensures r.Ok? && r.value.memFixed ==> r.value.image.width < frame.width && r.value.image.height < frame.height
    ensures r.Ok? && !r.value.modeFixed && !r.value.dimenFixed && !r.value.memFixed ==> r.value.image == frame
    ensures var pre := CheckOversizedDimen(CheckImgMode(frame).image).image;
      (r.Err? <==> encode(pre) > maxBytes && (pre.width == 0 || pre.height == 0)) &&
      (r.Ok? ==> (r.value.memFixed <==> encode(pre) > maxBytes)) &&
      (r.Ok? && !r.value.memFixed ==> r.value.image == pre)
  {
    var mode := CheckImgMode(frame);
    var dimen := CheckOversizedDimen(mode.image);
    match CheckOversizedMem(dimen.image, encode, maxBytes)
    case Err(f) => Err(f)
    case Ok(mem) => Ok(Fixed(mode.changed, dimen.changed, mem.changed, mem.image))
  }

  /** A memory fix keeps the mode of the page after the mode and dimension
      fixes and scales both of its sides by 0.95 * sqrt(maxBytes / size). */
  lemma FixPageMemoryFix(frame: Image, encode: Image -> nat, maxBytes: nat)
    ensures var pre, r := CheckOversizedDimen(CheckImgMode(frame).image).image, FixPage(frame, encode, maxBytes);
      r.Ok? && r.value.memFixed ==>
        r.value.image.mode == pre.mode &&
        SafetyScaled(pre.width, r.value.image.width, maxBytes, encode(pre)) &&
        SafetyScaled(pre.height, r.value.image.height, maxBytes, encode(pre))
  {
  }

  /** The checks' outcome for every frame of a document, in order. */
  function FixAll(frames: seq<Image>, encode: Image -> nat): (fixes: seq<Result<Fixed>>)
    ensures |fixes| == |frames|
    ensures forall i {:trigger FixPage(frames[i], encode, DefaultMaxBytes)} ::
      0 <= i < |frames| ==> fixes[i] == FixPage(frames[i], encode, DefaultMaxBytes)
  {
    seq(|frames|, i requires 0 <= i < |frames| => FixPage(frames[i], encode, DefaultMaxBytes))
  }

  /** The keys the pages of a document stored under `key` are reported (and,
      if modified, written) under: the split keys for a multi-page document,
      the document's own key for a single page. */
  function PageKeys(key: string, numPages: nat): (keys: seq<string>)
    ensures |keys| == numPages
    ensures numPages == 1 ==> keys == [key]
    ensures numPages > 1 ==> forall i :: 0 <= i < numPages ==> keys[i] == SplitKey(key, i + 1)
  {
    seq(numPages, i requires 0 <= i < numPages => if numPages > 1 then SplitKey(key, i + 1) else key)
  }

  /** The handler's decision to re-save a page. The dimension check does not
      take part in it. */
  predicate PageIsModified(numPages: nat, fixed: Fixed) {
    numPages > 1 || fixed.modeFixed || fixed.memFixed
  }

  /** The handler's `bool_modified` once page k has been checked: set by a
      multi-page document and by a mode or memory fix on any page so far,
      and never cleared. */
  ghost predicate StickyFlag(fixes: seq<Result<Fixed>>, k: nat)
    requires k < |fixes|
    decreases k
  {
    (0 < k && StickyFlag(fixes, k - 1)) || |fixes| > 1 ||
    (fixes[k].Ok? && (fixes[k].value.modeFixed || fixes[k].value.memFixed))
  }

  /** The sticky flag, never cleared between pages, decides every page the
      same way as the per-page rule: a multi-page document sets it from the
      first page on, and a single page has no earlier page to inherit it from. */
  lemma {:induction false} StickyFlagIsPageIsModified(fixes: seq<Result<Fixed>>, k: nat)
    requires k < |fixes| && fixes[k].Ok?
    ensures StickyFlag(fixes, k) <==> PageIsModified(|fixes|, fixes[k].value)
  {
    if |fixes| == 1 {
      assert k == 0;
    }
  }

  // ---------------------------------------------------------------------
  // Specification of the loop, over the pages' keys and check outcomes

  /** The handler's lists and its write log after some pages, and the
      exception, if any, that stopped it. */
  datatype Progress = Progress(modified: seq<PageRef>, unmodified: seq<PageRef>, writes: seq<Put>, fault: Option<Fault>)

  /** The state after the first k pages of a document whose pages are keyed
      `keys` and whose pages' checks came out as `fixes`. */
  function Run(bucket: string, keys: seq<string>, fixes: seq<Result<Fixed>>, k: nat): (r: Progress)
    requires |keys| == |fixes| && k <= |fixes|
    ensures |r.modified| + |r.unmodified| <= k
    ensures r.fault.None? ==> |r.modified| + |r.unmodified| == k
    ensures |r.writes| == |r.modified|
    decreases k
  {
    if k == 0 then Progress([], [], [], None)
    else
      var p := Run(bucket, keys, fixes, k - 1);
      if p.fault.Some? then p
      else match fixes[k - 1]
        case Err(f) => p.(fault := Some(f))
        case Ok(fixed) =>
          var ref := PageRef(bucket, keys[k - 1], k);
          if PageIsModified(|fixes|, fixed) then
            p.(modified := p.modified + [ref], writes := p.writes + [Put(ref, fixed.image)])
          else
            p.(unmodified := p.unmodified + [ref])
  }

  /** The state after all pages of a document stored under `key`. */
  function Outcome(bucket: string, key: string, fixes: seq<Result<Fixed>>): (r: Progress)
    ensures r.fault.Some? <==> exists i :: 0 <= i < |fixes| && fixes[i].Err?
    ensures r.fault.None? ==> |r.modified| + |r.unmodified| == |fixes|
    ensures |fixes| > 1 ==> r.unmodified == []
    ensures |r.writes| == |r.modified|
  {
    var keys := PageKeys(key, |fixes|);
    RunFaultIff(bucket, keys, fixes, |fixes|);
    assert |fixes| > 1 ==> Run(bucket, keys, fixes, |fixes|).unmodified == [] by {
      if |fixes| > 1 {
        MultiPageAllSplit(bucket, keys, fixes, |fixes|);
      }
    }
    Run(bucket, keys, fixes, |fixes|)
  }

  /** What the handler returns for a document that is not a housekeeping file. */
  function Report(bucket: string, key: string, fixes: seq<Result<Fixed>>): (r: Response)
    ensures r.Raised? <==> exists i :: 0 <= i < |fixes| && fixes[i].Err?
    ensures r.Success? ==> r.bucket == bucket && r.orig == key && r.pageCount == |fixes|
    ensures r.Success? ==> |r.modifiedPages| + |r.pages| == r.pageCount
    ensures r.Success? ==> |r.pages| <= 1
  {
    var p := Outcome(bucket, key, fixes);
    if p.fault.Some? then Raised(p.fault.value)
    else Success(bucket, key, |fixes|, p.modified, p.unmodified)
  }

  // ---------------------------------------------------------------------
  // The handler

  /** The event decoding, the object fetch and the frame extraction are done
      by the caller: `frames` are the document's frames in order and
      `encode` gives the size of the TIFF encoding `im.save` produces. The
      objects written are returned in `writes`, in order. */
  method LambdaHandler(bucket: string, key: string, frames: seq<Image>, encode: Image -> nat)
    returns (resp: Response, writes: seq<Put>)
    ensures Contains(key, HousekeepingMarker) ==> resp == Ignored && writes == []
    ensures !Contains(key, HousekeepingMarker) ==>
      resp == Report(bucket, key, FixAll(frames, encode)) &&
      writes == Outcome(bucket, key, FixAll(frames, encode)).writes
  {
    writes := [];
    if Contains(key, HousekeepingMarker) {
      resp := Ignored;
      return;
    }
    ghost var fixes := FixAll(frames, encode);
    var boolModified := false;
    var numPages := |frames|;
    ghost var keys := PageKeys(key, numPages);
    var unmodifiedPages: seq<PageRef> := [];
    var modifiedPages: seq<PageRef> := [];
    for pageNum := 0 to numPages
      invariant pageNum < numPages ==> (boolModified <==> 0 < pageNum)
      invariant Run(bucket, keys, fixes, pageNum) == Progress(modifiedPages, unmodifiedPages, writes, None)
    {
      var outKey: string;
      var pageIm: Image;
      if numPages > 1 {
        outKey := SplitKey(key, pageNum + 1);
        boolModified := true;
        pageIm := frames[pageNum];
      } else {
        outKey := key;
        pageIm := frames[pageNum];
      }

      var modeCheck := CheckImgMode(pageIm);
      pageIm := modeCheck.image;
      if modeCheck.changed {
        boolModified := true;
      }

      var dimenCheck := CheckOversizedDimen(pageIm);
      pageIm := dimenCheck.image;

      var memCheck := CheckOversizedMem(pageIm, encode, DefaultMaxBytes);
      assert fixes[pageNum] == FixPage(frames[pageNum], encode, DefaultMaxBytes);
      if memCheck.Err? {
        // The exception leaves the handler; pages already written stay written.
        RunFaultPersists(bucket, keys, fixes, pageNum + 1, numPages);
        resp := Raised(memCheck.fault);
        return;
      }
      pageIm := memCheck.value.image;
      if memCheck.value.changed {
        boolModified := true;
      }

      ghost var fixed := Fixed(modeCheck.changed, dimenCheck.changed, memCheck.value.changed, pageIm);
      assert fixes[pageNum] == Ok(fixed) && outKey == keys[pageNum];
      assert boolModified <==> PageIsModified(numPages, fixed);
      // The flag after this page's checks is the sticky flag of the first pageNum + 1 pages.
      StickyFlagIsPageIsModified(fixes, pageNum);
      assert boolModified <==> StickyFlag(fixes, pageNum);
      var ref := PageRef(bucket, outKey, pageNum + 1);
      if boolModified {
        modifiedPages := modifiedPages + [ref];
        writes := writes + [Put(ref, pageIm)];
      } else {
        unmodifiedPages := unmodifiedPages + [ref];
      }
    }
    resp := Success(bucket, key, numPages, modifiedPages, unmodifiedPages);
  }

  // ---------------------------------------------------------------------
  // Properties of the loop

  /** Once a page has raised, later pages are not processed. */
  lemma {:induction false} RunFaultPersists(bucket: string, keys: seq<string>, fixes: seq<Result<Fixed>>, k: nat, n: nat)
    requires |keys| == |fixes| && k <= n <= |fixes|
    requires Run(bucket, keys, fixes, k).fault.Some?
    ensures Run(bucket, keys, fixes, n) == Run(bucket, keys, fixes, k)
    decreases n
  {
    if k < n {
      RunFaultPersists(bucket, keys, fixes, k, n - 1);
    }
  }

  /** The loop stops with an exception exactly when the checks raised on one
      of the pages it reached. */
  lemma {:induction false} RunFaultIff(bucket: string, keys: seq<string>, fixes: seq<Result<Fixed>>, k: nat)
    requires |keys| == |fixes| && k <= |fixes|
    ensures Run(bucket, keys, fixes, k).fault.Some? <==> exists i :: 0 <= i < k && fixes[i].Err?
    decreases k
  {
    if k > 0 {
      RunFaultIff(bucket, keys, fixes, k - 1);
      var p := Run(bucket, keys, fixes, k - 1);
      if p.fault.None? && fixes[k - 1].Ok? {
        assert Run(bucket, keys, fixes, k).fault.None?;
        assert forall i :: 0 <= i < k && fixes[i].Err? ==> i < k - 1;
      } else if fixes[k - 1].Err? {
        assert Run(bucket, keys, fixes, k).fault.Some?;
        assert exists i :: 0 <= i < k && fixes[i].Err?;
      }
    }
  }

  /** Pages listed in increasing order of their numbers. */
  ghost predicate Ascending(refs: seq<PageRef>) {
    forall i, j :: 0 <= i < j < |refs| ==> refs[i].pageNum < refs[j].pageNum
  }

  ghost predicate HasPage(refs: seq<PageRef>, n: nat) {
    exists r :: r in refs && r.pageNum == n
  }

  /** Appending page k + 1 to an ordered list of pages among 1..k. */
  lemma AppendPage(refs: seq<PageRef>, ref: PageRef, k: nat)
    requires Ascending(refs) && forall r :: r in refs ==> 1 <= r.pageNum <= k
    requires ref.pageNum == k + 1
    ensures Ascending(refs + [ref]) && forall r :: r in refs + [ref] ==> 1 <= r.pageNum <= k + 1
    ensures forall n: nat :: HasPage(refs + [ref], n) <==> HasPage(refs, n) || n == k + 1
  {
    var out := refs + [ref];
    forall n: nat | HasPage(out, n) && n != k + 1
      ensures HasPage(refs, n)
    {
      var r :| r in out && r.pageNum == n;
      assert r in refs;
    }
    assert ref in out;
  }

  /** A list of pages among 1..k lists no page k + 1. */
  lemma KeepPages(refs: seq<PageRef>, k: nat)
    requires forall r :: r in refs ==> 1 <= r.pageNum <= k
    ensures forall r :: r in refs ==> 1 <= r.pageNum <= k + 1
    ensures !HasPage(refs, k + 1)
  {
  }

  /** Without an exception, each of pages 1..k is reported exactly once, in
      one of the two lists, and each list is in page order. */
  lemma {:induction false} RunPartitionsPages(bucket: string, keys: seq<string>, fixes: seq<Result<Fixed>>, k: nat)
    requires |keys| == |fixes| && k <= |fixes|
    ensures var p := Run(bucket, keys, fixes, k);
      p.fault.None? ==>
        Ascending(p.modified) && Ascending(p.unmodified) &&
        (forall r :: r in p.modified ==> 1 <= r.pageNum <= k) &&
        (forall r :: r in p.unmodified ==> 1 <= r.pageNum <= k) &&
        (forall n: nat :: 1 <= n <= k ==> (HasPage(p.modified, n) <==> !HasPage(p.unmodified, n)))
    decreases k
  {
    if k > 0 {
      RunPartitionsPages(bucket, keys, fixes, k - 1);
      var p := Run(bucket, keys, fixes, k - 1);
      if p.fault.None? && fixes[k - 1].Ok? {
        var ref := PageRef(bucket, keys[k - 1], k);
        if PageIsModified(|fixes|, fixes[k - 1].value) {
          AppendPage(p.modified, ref, k - 1);
          KeepPages(p.unmodified, k - 1);
        } else {
          AppendPage(p.unmodified, ref, k - 1);
          KeepPages(p.modified, k - 1);
        }
      }
    }
  }

  /** Writes happen for the modified pages, in order, and only for them; each
      write stores the page its checks produced. */
  lemma {:induction false} RunWritesModifiedPages(bucket: string, keys: seq<string>, fixes: seq<Result<Fixed>>, k: nat)
    requires |keys| == |fixes| && k <= |fixes|
    ensures var p := Run(bucket, keys, fixes, k);
      forall i :: 0 <= i < |p.writes| ==> p.writes[i].ref == p.modified[i]
    ensures var p := Run(bucket, keys, fixes, k);
      forall w :: w in p.writes ==>
        1 <= w.ref.pageNum <= k && fixes[w.ref.pageNum - 1].Ok? &&
        fixes[w.ref.pageNum - 1].value.image == w.image
    decreases k
  {
    if k > 0 {
      RunWritesModifiedPages(bucket, keys, fixes, k - 1);
      var p := Run(bucket, keys, fixes, k - 1);
      if p.fault.None? && fixes[k - 1].Ok? && PageIsModified(|fixes|, fixes[k - 1].value) {
        var ref := PageRef(bucket, keys[k - 1], k);
        var put := Put(ref, fixes[k - 1].value.image);
        var q := Run(bucket, keys, fixes, k);
        assert q.writes == p.writes + [put] && q.modified == p.modified + [ref];
        forall w | w in q.writes
          ensures 1 <= w.ref.pageNum <= k && fixes[w.ref.pageNum - 1].Ok?
          ensures fixes[w.ref.pageNum - 1].value.image == w.image
        {
          if w != put {
            assert w in p.writes;
          }
        }
      }
    }
  }

  /** Every page the handler writes is out of bilevel mode and within the
      dimension bound, and no larger than its frame. */
  lemma WrittenPagesCompliant(bucket: string, key: string, frames: seq<Image>, encode: Image -> nat)
    ensures forall w :: w in Outcome(bucket, key, FixAll(frames, encode)).writes ==>
      w.image.mode != BilevelMode && w.image.width <= MaxDimension && w.image.height <= MaxDimension &&
      1 <= w.ref.pageNum <= |frames| &&
      w.image.width <= frames[w.ref.pageNum - 1].width && w.image.height <= frames[w.ref.pageNum - 1].height
  {
    var fixes := FixAll(frames, encode);
    var keys := PageKeys(key, |fixes|);
    RunWritesModifiedPages(bucket, keys, fixes, |frames|);
    forall w | w in Run(bucket, keys, fixes, |frames|).writes
      ensures w.image.mode != BilevelMode && w.image.width <= MaxDimension && w.image.height <= MaxDimension
      ensures 1 <= w.ref.pageNum <= |frames|
      ensures w.image.width <= frames[w.ref.pageNum - 1].width && w.image.height <= frames[w.ref.pageNum - 1].height
    {
      var fixed := FixPage(frames[w.ref.pageNum - 1], encode, DefaultMaxBytes);
      assert fixed.Ok? && fixed.value.image == w.image;
    }
  }

  /** Every page listed in `refs` lies in `bucket` under the key given for
      its number. */
  ghost predicate KeyedAs(refs: seq<PageRef>, bucket: string, keys: seq<string>) {
    forall r :: r in refs ==> 1 <= r.pageNum <= |keys| && r.bucket == bucket && r.key == keys[r.pageNum - 1]
  }

  lemma AppendKeyed(refs: seq<PageRef>, ref: PageRef, bucket: string, keys: seq<string>)
    requires KeyedAs(refs, bucket, keys) && KeyedAs([ref], bucket, keys)
    ensures KeyedAs(refs + [ref], bucket, keys)
  {
    forall r | r in refs + [ref]
      ensures 1 <= r.pageNum <= |keys| && r.bucket == bucket && r.key == keys[r.pageNum - 1]
    {
      if r != ref {
        assert r in refs;
      } else {
        assert r in [ref];
      }
    }
  }

  /** Every reported page carries the source bucket and the key given for its number. */
  lemma {:induction false} RunKeysPages(bucket: string, keys: seq<string>, fixes: seq<Result<Fixed>>, k: nat)
    requires |keys| == |fixes| && k <= |fixes|
    ensures var p := Run(bucket, keys, fixes, k);
      KeyedAs(p.modified, bucket, keys) && KeyedAs(p.unmodified, bucket, keys)
    decreases k
  {
    if k > 0 {
      RunKeysPages(bucket, keys, fixes, k - 1);
      var p := Run(bucket, keys, fixes, k - 1);
      if p.fault.None? && fixes[k - 1].Ok? {
        var ref := PageRef(bucket, keys[k - 1], k);
        assert KeyedAs([ref], bucket, keys);
        if PageIsModified(|fixes|, fixes[k - 1].value) {
          AppendKeyed(p.modified, ref, bucket, keys);
        } else {
          AppendKeyed(p.unmodified, ref, bucket, keys);
        }
      }
    }
  }

  /** In a multi-page document every page is modified and written under its
      own key; nothing is passed through unmodified. */
  lemma {:induction false} MultiPageAllSplit(bucket: string, keys: seq<string>, fixes: seq<Result<Fixed>>, k: nat)
    requires |keys| == |fixes| && 1 < |fixes| && k <= |fixes|
    ensures var p := Run(bucket, keys, fixes, k);
      p.unmodified == [] &&
      forall i :: 0 <= i < |p.modified| ==> p.modified[i] == PageRef(bucket, keys[i], i + 1)
    decreases k
  {
    if k > 0 {
      MultiPageAllSplit(bucket, keys, fixes, k - 1);
      var p := Run(bucket, keys, fixes, k - 1);
      if p.fault.None? && fixes[k - 1].Ok? {
        var ref := PageRef(bucket, keys[k - 1], k);
        assert PageIsModified(|fixes|, fixes[k - 1].value);
        assert Run(bucket, keys, fixes, k).modified == p.modified + [ref];
      }
    }
  }

  /** A multi-page document's pages are all modified, the i-th under the
      split key of page i + 1. */
  lemma MultiPageKeys(bucket: string, key: string, fixes: seq<Result<Fixed>>)
    requires 1 < |fixes|
    ensures var p := Outcome(bucket, key, fixes);
      p.unmodified == [] &&
      forall i :: 0 <= i < |p.modified| ==> p.modified[i] == PageRef(bucket, SplitKey(key, i + 1), i + 1)
  {
    MultiPageAllSplit(bucket, PageKeys(key, |fixes|), fixes, |fixes|);
  }

  /** No two pages written for one document share a key. */
  lemma ModifiedKeysDistinct(bucket: string, key: string, fixes: seq<Result<Fixed>>)
    ensures var p := Outcome(bucket, key, fixes);
      forall i, j :: 0 <= i < j < |p.modified| ==> p.modified[i].key != p.modified[j].key
  {
    var p := Outcome(bucket, key, fixes);
    RunPartitionsPages(bucket, PageKeys(key, |fixes|), fixes, |fixes|);
    if 1 < |fixes| {
      MultiPageKeys(bucket, key, fixes);
    }
  }

  /** A single-page document keeps its key; it is modified, and written,
      exactly when the mode check or the memory check fired. */
  lemma SinglePage(bucket: string, key: string, fixed: Fixed)
    ensures var ref := PageRef(bucket, key, 1);
      var modified := fixed.modeFixed || fixed.memFixed;
      Report(bucket, key, [Ok(fixed)]) ==
        Success(bucket, key, 1, if modified then [ref] else [], if modified then [] else [ref]) &&
      Outcome(bucket, key, [Ok(fixed)]).writes == (if modified then [Put(ref, fixed.image)] else [])
  {
  }

  /** A grayscale page of 20000 by 500 pixels whose resized encoding fits the
      budget has its dimensions fixed, yet it is reported unmodified under its
      original key and nothing is written. */
  lemma DimensionOnlyFixIsDropped(bucket: string, key: string, encode: Image -> nat)
    requires encode(Image(10000, 250, "L")) <= DefaultMaxBytes
    ensures FixAll([Image(20000, 500, "L")], encode) == [Ok(Fixed(false, true, false, Image(10000, 250, "L")))]
    ensures Report(bucket, key, FixAll([Image(20000, 500, "L")], encode)) ==
      Success(bucket, key, 1, [], [PageRef(bucket, key, 1)])
    ensures Outcome(bucket, key, FixAll([Image(20000, 500, "L")], encode)).writes == []
  {
    var frame := Image(20000, 500, "L");
    assert CheckOversizedDimen(frame).image == Image(10000, 250, "L");
    SinglePage(bucket, key, Fixed(false, true, false, Image(10000, 250, "L")));
  }

  /** A page this handler wrote is, when its write triggers the handler
      again, passed through unmodified and not written again, provided its
      encoding now fits the budget (the memory fix does not re-check it). */
  lemma WrittenPageConverges(bucket: string, key: string, frames: seq<Image>, encode: Image -> nat, w: Put)
    requires w in Outcome(bucket, key, FixAll(frames, encode)).writes
    requires encode(w.image) <= DefaultMaxBytes
    ensures Report(bucket, w.ref.key, FixAll([w.image], encode)) ==
      Success(bucket, w.ref.key, 1, [], [PageRef(bucket, w.ref.key, 1)])
    ensures Outcome(bucket, w.ref.key, FixAll([w.image], encode)).writes == []
  {
    WrittenPagesCompliant(bucket, key, frames, encode);
    var again := FixPage(w.image, encode, DefaultMaxBytes);
    assert again == Ok(Fixed(false, false, false, w.image));
    SinglePage(bucket, w.ref.key, Fixed(false, false, false, w.image));
  }
}
