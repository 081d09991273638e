/**
 * The registry-backed image catalog of package `repository`: parsing the tags
 * of a repository into `Image` records, merging the per-branch results under
 * the best-effort error rule, composing full image references and the
 * single-registry credential store.
 *
 * The network work that obtains a repository's tag list (name validation, the
 * authentication probe, the tag enumeration) is an input here: a `Listing`,
 * which either holds the raw tags or the error that stopped the fetch.
 */
module Registry {
  import opened Wrappers
  import opened Strings
  import opened Strconv
  import opened FilterMaps

  /** `RegistryConfig`: the service's immutable connection settings. */
  datatype RegistryConfig = RegistryConfig(
    BaseURL: string,
    Username: string,
    Password: string,
    Namespace: string)

  /** A Go `error` value produced while fetching a branch; only its identity matters. */
  datatype FetchError = FetchError(message: string)

  /**
   * `Image`: one tag of the repository. `LastModified` is `None` for Go's zero
   * `time.Time` (the tag carried no timestamp) and `Some(secs)` for
   * `time.Unix(secs, 0)`.
   */
  datatype Image = Image(
    Tag: string,
    Branch: string,
    Revision: string,
    LastModified: Option<int>)

  /** What the registry answered to one branch's request for the tag list. */
  type Listing = Result<seq<string>, FetchError>

  /** `getImagesResult`: what one branch's fetch sends on the channel. */
  datatype BranchResult = BranchResult(images: seq<Image>, err: Option<FetchError>)

  // ---------------------------------------------------------------------------
  // Tag parsing (getImagesForBranch)
  // ---------------------------------------------------------------------------

  /**
   * The record one raw tag becomes, or `None` when the tag is dropped: split at
   * the last `-`; no `-` gives a record without metadata, otherwise the text
   * before it must parse as a base-10 int64 (the Unix seconds) and the text
   * after it is the revision.
   */
  function ParseTag(tag: string, branch: string): (r: Option<Image>)
    ensures r.Some? ==> r.value.Tag == tag && r.value.Branch == branch
    ensures r.Some? ==> (r.value.LastModified.None? <==> LastIndex(tag, '-') == -1)
    ensures r.None? <==> LastIndex(tag, '-') >= 0 && ParseInt(tag[..LastIndex(tag, '-')]).None?
  {
    var sep := LastIndex(tag, '-');
    if sep == -1 then Some(Image(tag, branch, "", None))
    else
      match ParseInt(tag[..sep])
      case None => None
      case Some(secs) => Some(Image(tag, branch, tag[sep + 1..], Some(secs)))
  }

  /**
   * Every record keeps the raw tag and the branch label, its revision never
   * contains `-`, and the timestamp is unset exactly when the tag has no `-`
   * (in which case the revision is empty as well).
   */
  lemma {:induction false} ParseTagRecord(tag: string, branch: string)
    ensures var r := ParseTag(tag, branch);
      && (r.Some? ==> r.value.Tag == tag && r.value.Branch == branch)
      && (r.Some? ==> '-' !in r.value.Revision)
      && (r.Some? ==> (r.value.LastModified.None? <==> '-' !in tag))
      && (r.Some? && r.value.LastModified.None? ==> r.value.Revision == "")
  {
  }

  /** A tag without `-` is always kept, with empty revision and no timestamp. */
  lemma {:induction false} NoSeparatorTag(tag: string, branch: string)
    requires '-' !in tag
    ensures ParseTag(tag, branch) == Some(Image(tag, branch, "", None))
  {
  }

  /**
   * A tag `<prefix>-<revision>` whose prefix parses as a base-10 int64 is kept
   * with that revision (possibly empty) and that many Unix seconds.
   */
  lemma {:induction false} ValidPrefixTag(prefix: string, revision: string, branch: string)
    requires '-' !in revision
    requires ParseInt(prefix).Some?
    ensures ParseTag(prefix + "-" + revision, branch)
         == Some(Image(prefix + "-" + revision, branch, revision, ParseInt(prefix)))
  {
    var tag := prefix + "-" + revision;
    LastIndexOfJoin(prefix, '-', revision);
    assert tag[..|prefix|] == prefix;
    assert tag[|prefix| + 1..] == revision;
  }

  /** A tag `<prefix>-<revision>` whose prefix does not parse is dropped silently. */
  lemma {:induction false} InvalidPrefixTag(prefix: string, revision: string, branch: string)
    requires '-' !in revision
    requires ParseInt(prefix).None?
    ensures ParseTag(prefix + "-" + revision, branch) == None
  {
    LastIndexOfJoin(prefix, '-', revision);
    assert (prefix + "-" + revision)[..|prefix|] == prefix;
  }

  /** The tag convention `<unix seconds>-<revision>` round-trips for every int64 timestamp. */
  lemma {:induction false} TimestampedTag(secs: int, revision: string, branch: string)
    requires InInt64Range(secs)
    requires '-' !in revision
    ensures ParseTag(FormatInt(secs) + "-" + revision, branch)
         == Some(Image(FormatInt(secs) + "-" + revision, branch, revision, Some(secs)))
  {
    ParseFormatInt(secs);
    ValidPrefixTag(FormatInt(secs), revision, branch);
  }

  /** A timestamp beyond the int64 range makes the whole tag disappear. */
  lemma {:induction false} OutOfRangeTag(n: nat, revision: string, branch: string)
    requires n > MaxInt64
    requires '-' !in revision
    ensures ParseTag(Decimal(n) + "-" + revision, branch) == None
  {
    ParseOutOfRange(n);
    InvalidPrefixTag(Decimal(n), revision, branch);
  }

  /** The split is at the last `-`, so a negative timestamp in front is kept: `-5-abc`. */
  lemma {:induction false} NegativeTimestampTag(branch: string)
    ensures ParseTag("-5-abc", branch) == Some(Image("-5-abc", branch, "abc", Some(-5)))
  {
    assert "-5-abc" == "-5" + "-" + "abc";
    assert "-5"[1..] == "5";
    assert "5"[..0] == "";
    ValidPrefixTag("-5", "abc", branch);
  }

  /** A trailing `-` gives a timestamp with an empty revision: `123-`. */
  lemma {:induction false} EmptyRevisionTag(branch: string)
    ensures ParseTag("123-", branch) == Some(Image("123-", branch, "", Some(123)))
  {
    assert "123-" == "123" + "-" + "";
    assert "123"[..2] == "12";
    assert "12"[..1] == "1";
    assert "1"[..0] == "";
    ValidPrefixTag("123", "", branch);
  }

  /** Leading zeros in the timestamp are accepted: `0005-abc` was built at second 5. */
  lemma {:induction false} LeadingZerosTag(branch: string)
    ensures ParseTag("0005-abc", branch) == Some(Image("0005-abc", branch, "abc", Some(5)))
  {
    assert "0005-abc" == "0005" + "-" + "abc";
    assert "0005"[..3] == "000";
    assert "000"[..2] == "00";
    assert "00"[..1] == "0";
    assert "0"[..0] == "";
    ParseDigits("0005");
    ValidPrefixTag("0005", "abc", branch);
  }

  /** A prefix that is not a number, or is empty, drops the tag: `abc-xyz`, `-abc`. */
  lemma {:induction false} DroppedTagExamples(branch: string)
    ensures ParseTag("abc-xyz", branch) == None
    ensures ParseTag("-abc", branch) == None
  {
    assert "abc-xyz" == "abc" + "-" + "xyz";
    assert !IsDigit("abc"[0]);
    InvalidPrefixTag("abc", "xyz", branch);
    assert "-abc" == "" + "-" + "abc";
    InvalidPrefixTag("", "abc", branch);
  }

  /** `ParseTag` for one branch label, as the step function of the parsing loop. */
  function TagParser(branch: string): string -> Option<Image>
  {
    tag => ParseTag(tag, branch)
  }

  /** The records the parsing loop builds from `tags`, in tag order. */
  function ParsedTags(tags: seq<string>, branch: string): (images: seq<Image>)
    ensures |images| <= |tags|
  {
    FilterMap(tags, TagParser(branch))
  }

  /**
   * The output of the parsing loop is exactly the tags that parse, in input
   * order: the positions of the kept tags increase, a position is kept iff its
   * tag parses, and the k-th record is the parse of the tag at the k-th kept
   * position. So the output is a subsequence of the input, no longer than it.
   */
  lemma {:induction false} ParsedTagsAreKeptTags(tags: seq<string>, branch: string)
    ensures var images, kept := ParsedTags(tags, branch), KeptPositions(tags, TagParser(branch));
      && |kept| == |images| <= |tags|
      && (forall k, l :: 0 <= k < l < |kept| ==> kept[k] < kept[l])
      && (forall i :: 0 <= i < |tags| ==> (i in kept <==> ParseTag(tags[i], branch).Some?))
      && (forall k :: 0 <= k < |kept| ==> kept[k] < |tags| && ParseTag(tags[kept[k]], branch) == Some(images[k]))
  {
    FilterMapAtKept(tags, TagParser(branch));
    KeptPositionsAreAccepted(tags, TagParser(branch));
  }

  /**
   * Every record carries the branch label it was fetched for and one of the
   * input tags, and the tags are kept in input order.
   */
  lemma {:induction false} ParsedTagsRecords(tags: seq<string>, branch: string)
    ensures var images, kept := ParsedTags(tags, branch), KeptPositions(tags, TagParser(branch));
      forall k :: 0 <= k < |images| ==>
        images[k].Branch == branch && k < |kept| && kept[k] < |tags| && images[k].Tag == tags[kept[k]]
  {
    ParsedTagsAreKeptTags(tags, branch);
    var images, kept := ParsedTags(tags, branch), KeptPositions(tags, TagParser(branch));
    forall k | 0 <= k < |images|
      ensures images[k].Branch == branch && images[k].Tag == tags[kept[k]]
    {
      ParseTagRecord(tags[kept[k]], branch);
    }
  }

  /** A tag list without any `-` loses nothing and keeps the order of the tags. */
  lemma {:induction false} ParsedTagsWithoutSeparators(tags: seq<string>, branch: string)
    requires forall i :: 0 <= i < |tags| ==> '-' !in tags[i]
    ensures |ParsedTags(tags, branch)| == |tags|
    ensures forall k :: 0 <= k < |tags| ==> ParsedTags(tags, branch)[k] == Image(tags[k], branch, "", None)
  {
    forall i | 0 <= i < |tags|
      ensures TagParser(branch)(tags[i]) == Some(Image(tags[i], branch, "", None))
    {
      NoSeparatorTag(tags[i], branch);
    }
    FilterMapAllAccepted(tags, TagParser(branch));
  }

  /** The outcome of one branch's fetch: the parsed tags, or the error with no images. */
  function BranchOutcome(listing: Listing, branch: string): (r: BranchResult)
    ensures r.err.Some? <==> listing.Failure?
    ensures r.err.Some? ==> r.images == [] && r.err.value == listing.error
  {
    match listing
    case Failure(e) => BranchResult([], Some(e))
    case Success(tags) => BranchResult(ParsedTags(tags, branch), None)
  }

  /**
   * `getImagesForBranch`, past the point where the tag list has been obtained:
   * a failed listing is returned as the error with no images; otherwise every
   * tag is parsed in order, appending the records of the tags that are kept.
   */
  method GetImagesForBranch(listing: Listing, branch: string)
    returns (images: seq<Image>, err: Option<FetchError>)
    ensures BranchResult(images, err) == BranchOutcome(listing, branch)
  {
    if listing.Failure? {
      return [], Some(listing.error);
    }
    var tags := listing.value;
    images := [];
    for i := 0 to |tags|
      invariant images == ParsedTags(tags[..i], branch)
    {
      FilterMapStep(tags, i, TagParser(branch));
      var tag := tags[i];
      var image := Image(tag, branch, "", None);
      var sepIndex := LastIndex(tag, '-');
      if sepIndex != -1 {
        var unixSecs := ParseInt(tag[..sepIndex]);
        if unixSecs.None? {
          continue;
        }
        image := image.(Revision := tag[sepIndex + 1..], LastModified := unixSecs);
      }
      images := images + [image];
    }
    assert tags[..|tags|] == tags;
    err := None;
  }

  // ---------------------------------------------------------------------------
  // Merging the branch results (GetRepository)
  // ---------------------------------------------------------------------------

  /** The images of all results, concatenated in delivery order. */
  function AllImages(results: seq<BranchResult>): seq<Image>
  {
    if |results| == 0 then []
    else AllImages(results[..|results| - 1]) + results[|results| - 1].images
  }

  /** The last error in delivery order, if any result carried one. */
  function LastError(results: seq<BranchResult>): Option<FetchError>
  {
    if |results| == 0 then None
    else if results[|results| - 1].err.Some? then results[|results| - 1].err
    else LastError(results[..|results| - 1])
  }

  /** The concatenated images are empty exactly when every result brought none. */
  lemma {:induction false} AllImagesEmpty(results: seq<BranchResult>)
    ensures AllImages(results) == [] <==> forall k :: 0 <= k < |results| ==> results[k].images == []
  {
    if |results| > 0 {
      var front := results[..|results| - 1];
      AllImagesEmpty(front);
      assert forall k :: 0 <= k < |front| ==> front[k] == results[k];
    }
  }

  /**
   * The error kept is absent exactly when no result carried one, and otherwise
   * it is the error of a result after which no result carried an error.
   */
  lemma {:induction false} LastErrorIsLast(results: seq<BranchResult>)
    ensures LastError(results).None? <==> forall k :: 0 <= k < |results| ==> results[k].err.None?
    ensures LastError(results).Some? ==>
              exists k :: 0 <= k < |results| && results[k].err == LastError(results)
                && forall j :: k < j < |results| ==> results[j].err.None?
  {
    if |results| > 0 && results[|results| - 1].err.None? {
      var front := results[..|results| - 1];
      LastErrorIsLast(front);
      assert forall k :: 0 <= k < |front| ==> front[k] == results[k];
    }
  }

  /** The return rule of `GetRepository`: an error only if no image was gathered at all. */
  function Outcome(images: seq<Image>, err: Option<FetchError>): (r: Result<seq<Image>, FetchError>)
    ensures r.Failure? <==> images == [] && err.Some?
    ensures r.Failure? ==> Some(r.error) == err
    ensures r.Success? ==> r.value == images
  {
    if |images| == 0 && err.Some? then Failure(err.value) else Success(images)
  }

  /** What `GetRepository` has gathered before `sortByLastModified`, for one delivery order of the branch results. */
  function Merge(results: seq<BranchResult>): (r: Result<seq<Image>, FetchError>)
    ensures r.Success? ==> r.value == AllImages(results)
    ensures r.Failure? ==> AllImages(results) == [] && LastError(results) == Some(r.error)
  {
    Outcome(AllImages(results), LastError(results))
  }

  /**
   * The merge fails iff no result brought an image and some result carried an
   * error; the error is then the last one delivered. Otherwise it succeeds with
   * every result's images concatenated in delivery order.
   */
  lemma {:induction false} MergeRule(results: seq<BranchResult>)
    ensures Merge(results).Failure?
        <==> (forall k :: 0 <= k < |results| ==> results[k].images == [])
             && (exists k :: 0 <= k < |results| && results[k].err.Some?)
    ensures Merge(results).Failure? ==>
              exists k :: 0 <= k < |results| && results[k].err == Some(Merge(results).error)
                && forall j :: k < j < |results| ==> results[j].err.None?
    ensures Merge(results).Success? ==> Merge(results).value == AllImages(results)
  {
    AllImagesEmpty(results);
    LastErrorIsLast(results);
  }

  /** When every branch succeeds and no branch has a tag, the result is an empty list and no error. */
  lemma {:induction false} AllSucceedWithoutTags(results: seq<BranchResult>)
    requires forall k :: 0 <= k < |results| ==> results[k] == BranchResult([], None)
    ensures Merge(results) == Success([])
  {
    MergeRule(results);
    AllImagesEmpty(results);
  }

  /** One branch with images is never blanked out by failures of the others. */
  lemma {:induction false} HealthyBranchWins(results: seq<BranchResult>, k: nat)
    requires k < |results| && results[k].images != []
    ensures Merge(results).Success?
    ensures multiset(results[k].images) <= multiset(Merge(results).value)
  {
    AllImagesAround(results, k);
    AllImagesEmpty(results);
    assert |multiset(AllImages(results))| == |AllImages(results)|;
    assert |multiset(results[k].images)| == |results[k].images|;
  }

  /** The images of a concatenation of delivery sequences. */
  lemma {:induction false} AllImagesSplit(front: seq<BranchResult>, back: seq<BranchResult>)
    ensures AllImages(front + back) == AllImages(front) + AllImages(back)
    decreases |back|
  {
    if |back| > 0 {
      var back' := back[..|back| - 1];
      assert (front + back)[..|front + back| - 1] == front + back';
      AllImagesSplit(front, back');
    } else {
      assert front + back == front;
    }
  }

  /**
   * Only the multiset of images depends on the delivery order: two deliveries
   * of the same results produce the same images, possibly in another order.
   */
  lemma {:induction false} AllImagesPermutation(xs: seq<BranchResult>, ys: seq<BranchResult>)
    requires multiset(xs) == multiset(ys)
    ensures multiset(AllImages(xs)) == multiset(AllImages(ys))
    decreases |xs|
  {
    if |xs| == 0 {
      assert |ys| == |multiset(ys)| == 0;
    } else {
      var x := xs[|xs| - 1];
      var xs' := xs[..|xs| - 1];
      assert x in multiset(ys);
      var j :| 0 <= j < |ys| && ys[j] == x;
      var ys' := ys[..j] + ys[j + 1..];
      RemoveOne(xs, |xs| - 1);
      assert xs[..|xs| - 1] + xs[|xs|..] == xs';
      RemoveOne(ys, j);
      AllImagesPermutation(xs', ys');
      AllImagesAround(ys, j);
    }
  }

  /** Taking one element out of a sequence takes one copy of it out of its multiset. */
  lemma {:induction false} RemoveOne<T>(s: seq<T>, j: nat)
    requires j < |s|
    ensures multiset(s[..j] + s[j + 1..]) == multiset(s) - multiset{s[j]}
  {
    assert s == s[..j] + [s[j]] + s[j + 1..];
  }

  /** The images of a delivery are those of one result plus those of all the others. */
  lemma {:induction false} AllImagesAround(results: seq<BranchResult>, j: nat)
    requires j < |results|
    ensures multiset(AllImages(results))
         == multiset(AllImages(results[..j] + results[j + 1..])) + multiset(results[j].images)
  {
    var r, front, back := results[j], results[..j], results[j + 1..];
    var withR := front + [r];
    assert results == withR + back;
    AllImagesSplit(withR, back);
    assert withR[..|front|] == front;
    assert AllImages(withR) == AllImages(front) + r.images;
    assert AllImages(results) == AllImages(front) + r.images + AllImages(back);
    AllImagesSplit(front, back);
    MultisetOfMiddle(AllImages(front), r.images, AllImages(back));
  }

  /** Moving a middle part to the end does not change the multiset. */
  lemma {:induction false} MultisetOfMiddle<T>(a: seq<T>, m: seq<T>, b: seq<T>)
    ensures multiset(a + m + b) == multiset(a + b) + multiset(m)
  {
  }

  /**
   * Whether the merge fails does not depend on the delivery order, and on
   * success the images are the same multiset for every order.
   */
  lemma {:induction false} MergeOrderIndependent(xs: seq<BranchResult>, ys: seq<BranchResult>)
    requires multiset(xs) == multiset(ys)
    ensures Merge(xs).Failure? == Merge(ys).Failure?
    ensures Merge(xs).Success? ==> multiset(Merge(xs).value) == multiset(Merge(ys).value)
  {
    assert forall r :: r in xs <==> r in ys by {
      forall r ensures r in xs <==> r in ys {
        assert r in xs <==> r in multiset(xs);
        assert r in ys <==> r in multiset(ys);
      }
    }
    MergeRule(xs);
    MergeRule(ys);
    assert (forall k :: 0 <= k < |xs| ==> xs[k].images == []) <==> (forall k :: 0 <= k < |ys| ==> ys[k].images == []) by {
      if exists k :: 0 <= k < |xs| && xs[k].images != [] {
        var k :| 0 <= k < |xs| && xs[k].images != [];
        assert xs[k] in ys;
      }
      if exists k :: 0 <= k < |ys| && ys[k].images != [] {
        var k :| 0 <= k < |ys| && ys[k].images != [];
        assert ys[k] in xs;
      }
    }
    assert (exists k :: 0 <= k < |xs| && xs[k].err.Some?) <==> (exists k :: 0 <= k < |ys| && ys[k].err.Some?) by {
      if exists k :: 0 <= k < |xs| && xs[k].err.Some? {
        var k :| 0 <= k < |xs| && xs[k].err.Some?;
        assert xs[k] in ys;
      }
      if exists k :: 0 <= k < |ys| && ys[k].err.Some? {
        var k :| 0 <= k < |ys| && ys[k].err.Some?;
        assert ys[k] in xs;
      }
    }
    AllImagesPermutation(xs, ys);
  }

  /** The per-branch outcomes, in the order the branches were given. */
  function BranchOutcomes(branches: seq<string>, listings: seq<Listing>): (results: seq<BranchResult>)
    requires |listings| == |branches|
    ensures |results| == |branches|
    ensures forall i :: 0 <= i < |branches| ==> results[i] == BranchOutcome(listings[i], branches[i])
  {
    seq(|branches|, i requires 0 <= i < |branches| => BranchOutcome(listings[i], branches[i]))
  }

  /**
   * `GetRepository(repo, branches)`, given what the registry answers each
   * branch's fetch (`listings[i]` for `branches[i]`). One fetch runs per branch
   * and sends its result on a channel; the results are then drained in
   * whatever order they were delivered, which is any order: the drain picks
   * an arbitrary pending result each time, and `delivered` records the order.
   * An error is returned only when no image was gathered and some branch
   * failed; otherwise the gathered images, with no error.
   */
  method GetRepository(branches: seq<string>, listings: seq<Listing>)
    returns (result: Result<seq<Image>, FetchError>, ghost delivered: seq<BranchResult>)
    requires |listings| == |branches|
    ensures multiset(delivered) == multiset(BranchOutcomes(branches, listings))
    ensures result == Merge(delivered)
    ensures result.Failure? <==>
              (forall i :: 0 <= i < |branches| ==> BranchOutcome(listings[i], branches[i]).images == [])
              && (exists i :: 0 <= i < |branches| && listings[i].Failure?)
    ensures result.Success? ==>
              multiset(result.value) == multiset(AllImages(BranchOutcomes(branches, listings)))
  {
    // Fan-out: one fetch per branch, each result sent on the channel.
    var sent: seq<BranchResult> := [];
    for i := 0 to |branches|
      invariant |sent| == i
      invariant forall k :: 0 <= k < i ==> sent[k] == BranchOutcome(listings[k], branches[k])
    {
      var images, err := GetImagesForBranch(listings[i], branches[i]);
      sent := sent + [BranchResult(images, err)];
    }
    assert sent == BranchOutcomes(branches, listings);
    var channel := multiset(sent);

    // Drain: receive every result, in delivery order.
    var images: seq<Image> := [];
    var err: Option<FetchError> := None;
    delivered := [];
    while channel != multiset{}
      invariant multiset(delivered) + channel == multiset(sent)
      invariant images == AllImages(delivered)
      invariant err == LastError(delivered)
      decreases |channel|
    {
      var r :| r in channel;
      channel := channel - multiset{r};
      ReceiveOne(delivered, r);
      if r.err.Some? {
        err := r.err;
      }
      images := images + r.images;
      delivered := delivered + [r];
    }

    if |images| == 0 && err.Some? {
      result := Failure(err.value);
    } else {
      result := Success(images);
    }

    assert result == Outcome(AllImages(delivered), LastError(delivered));
    DeliveredOutcomes(branches, listings, delivered);
  }

  /**
   * For every delivery order of the branch outcomes, the merge fails iff no
   * branch brought an image and some branch's listing failed, and a success
   * holds the images of all branches.
   */
  lemma {:induction false} DeliveredOutcomes(branches: seq<string>, listings: seq<Listing>,
                                             delivered: seq<BranchResult>)
    requires |listings| == |branches|
    requires multiset(delivered) == multiset(BranchOutcomes(branches, listings))
    ensures Merge(delivered).Failure? <==>
              (forall i :: 0 <= i < |branches| ==> BranchOutcome(listings[i], branches[i]).images == [])
              && (exists i :: 0 <= i < |branches| && listings[i].Failure?)
    ensures Merge(delivered).Success? ==>
              multiset(Merge(delivered).value) == multiset(AllImages(BranchOutcomes(branches, listings)))
  {
    var sent := BranchOutcomes(branches, listings);
    MergeOrderIndependent(delivered, sent);
    BranchOutcomesMergeRule(branches, listings);
    MergeRule(sent);
    MergeRule(delivered);
  }

  /** Receiving one more result appends its images and replaces the error if it has one. */
  lemma {:induction false} ReceiveOne(delivered: seq<BranchResult>, r: BranchResult)
    ensures AllImages(delivered + [r]) == AllImages(delivered) + r.images
    ensures LastError(delivered + [r]) == if r.err.Some? then r.err else LastError(delivered)
  {
  }

  /** The merge rule for the outcomes of branch fetches, stated on what the registry answered. */
  lemma {:induction false} BranchOutcomesMergeRule(branches: seq<string>, listings: seq<Listing>)
    requires |listings| == |branches|
    ensures Merge(BranchOutcomes(branches, listings)).Failure? <==>
              (forall i :: 0 <= i < |branches| ==> BranchOutcome(listings[i], branches[i]).images == [])
              && (exists i :: 0 <= i < |branches| && listings[i].Failure?)
  {
    var results := BranchOutcomes(branches, listings);
    MergeRule(results);
    if exists i :: 0 <= i < |branches| && listings[i].Failure? {
      var i :| 0 <= i < |branches| && listings[i].Failure?;
      assert results[i].err.Some?;
    }
  }

  /**
   * Worked case for two branches, in either delivery order: a healthy branch
   * with two records and a failed branch give the two records and no error.
   */
  lemma {:induction false} OneBranchFailsExample(x: Image, y: Image, e: FetchError)
    ensures Merge([BranchResult([x, y], None), BranchResult([], Some(e))]) == Success([x, y])
    ensures Merge([BranchResult([], Some(e)), BranchResult([x, y], None)]) == Success([x, y])
  {
    var a := [BranchResult([x, y], None), BranchResult([], Some(e))];
    assert a[..1] == [a[0]] && [a[0]][..0] == [];
    assert AllImages([a[0]]) == [x, y];
    assert AllImages(a) == [x, y];
    var b := [BranchResult([], Some(e)), BranchResult([x, y], None)];
    assert b[..1] == [b[0]] && [b[0]][..0] == [];
    assert AllImages([b[0]]) == [];
    assert AllImages(b) == [x, y];
  }

  /** Worked case for two failed branches: the error delivered last is returned. */
  lemma {:induction false} BothBranchesFailExample(e1: FetchError, e2: FetchError)
    ensures Merge([BranchResult([], Some(e1)), BranchResult([], Some(e2))]) == Failure(e2)
  {
    var a := [BranchResult([], Some(e1)), BranchResult([], Some(e2))];
    AllImagesEmpty(a);
  }

  // ---------------------------------------------------------------------------
  // References (FullName, getRepository's repository name)
  // ---------------------------------------------------------------------------

  /**
   * The repository name with the configured namespace in front, as both
   * `FullName` and `getRepository` build it.
   */
  function RepositoryName(config: RegistryConfig, repo: string): (name: string)
    ensures config.Namespace == "" ==> name == repo
    ensures config.Namespace != "" ==> name == config.Namespace + "/" + repo
    ensures |name| >= |repo| && name[|name| - |repo|..] == repo
  {
    if config.Namespace != "" then config.Namespace + "/" + repo else repo
  }

  /** `FullName(repo, tag)`: `<base URL>/[<namespace>/]<repo>:<tag>`; it has no error case. */
  function FullName(config: RegistryConfig, repo: string, tag: string): (ref: string)
    ensures |ref| == |config.BaseURL| + 1 + |RepositoryName(config, repo)| + 1 + |tag|
    ensures ref[..|config.BaseURL| + 1] == config.BaseURL + "/"
    ensures ref[|ref| - |tag| - 1..] == ":" + tag
    ensures ref[|config.BaseURL| + 1..|ref| - |tag| - 1] == RepositoryName(config, repo)
  {
    var name := RepositoryName(config, repo);
    var ref := config.BaseURL + "/" + name + ":" + tag;
    assert ref[..|config.BaseURL| + 1] == config.BaseURL + "/";
    assert ref[|config.BaseURL| + 1..|ref| - |tag| - 1] == name;
    assert ref[|ref| - |tag| - 1..] == ":" + tag;
    ref
  }

  /** The two shapes of a full reference, with and without a namespace. */
  lemma {:induction false} FullNameShape(config: RegistryConfig, repo: string, tag: string)
    ensures config.Namespace == "" ==>
              FullName(config, repo, tag) == config.BaseURL + "/" + repo + ":" + tag
    ensures config.Namespace != "" ==>
              FullName(config, repo, tag) == config.BaseURL + "/" + config.Namespace + "/" + repo + ":" + tag
  {
  }

  /**
   * A full reference can be taken apart again at its last `:`, as long as the
   * tag has none: the part after it is the tag, the part before it is the base
   * URL, a `/` and the repository name `getRepository` resolves.
   */
  lemma {:induction false} FullNameSplits(config: RegistryConfig, repo: string, tag: string)
    requires ':' !in tag
    ensures var ref := FullName(config, repo, tag);
      var colon := LastIndex(ref, ':');
      && 0 <= colon
      && ref[colon + 1..] == tag
      && ref[..colon] == config.BaseURL + "/" + RepositoryName(config, repo)
  {
    var path := config.BaseURL + "/" + RepositoryName(config, repo);
    assert FullName(config, repo, tag) == path + [':'] + tag;
    LastIndexOfJoin(path, ':', tag);
    assert (path + [':'] + tag)[..|path|] == path;
    assert (path + [':'] + tag)[|path| + 1..] == tag;
  }

  /** The reference for the worked configuration `https://reg.example.com` with namespace `team`. */
  lemma {:induction false} FullNameExample()
    ensures FullName(RegistryConfig("https://reg.example.com", "", "", "team"), "svc", "v1")
         == "https://reg.example.com/team/svc:v1"
  {
  }

  // ---------------------------------------------------------------------------
  // Credentials (basicCredentialStore)
  // ---------------------------------------------------------------------------

  /** `basicCredentialStore`: the configured basic credentials for a single registry. */
  datatype BasicCredentialStore = BasicCredentialStore(Username: string, Password: string)

  /** The store `getRepository` builds from the configuration. */
  function CredentialStoreFor(config: RegistryConfig): (cs: BasicCredentialStore)
    ensures forall url :: Basic(cs, url) == (config.Username, config.Password)
  {
    BasicCredentialStore(config.Username, config.Password)
  }

  /** `Basic(u)`: the same username and password for every URL. */
  function Basic(cs: BasicCredentialStore, url: string): (credentials: (string, string))
    ensures credentials.0 == cs.Username && credentials.1 == cs.Password
  {
    (cs.Username, cs.Password)
  }

  /** `RefreshToken(u, service)`: no refresh token is ever held. */
  function RefreshToken(cs: BasicCredentialStore, url: string, service: string): (token: string)
    ensures token == ""
  {
    ""
  }

  /** `SetRefreshToken(realm, service, token)`: discards the token, the store is unchanged. */
  function SetRefreshToken(cs: BasicCredentialStore, realm: string, service: string, token: string): (updated: BasicCredentialStore)
    ensures updated == cs
    ensures forall url, service' :: RefreshToken(updated, url, service') == ""
  {
    cs
  }

  /**
   * The authorizers built for a fetch see the configured credentials for any
   * URL, and a refresh token offered to the store is never handed back.
   */
  lemma {:induction false} CredentialsFromConfig(config: RegistryConfig, url: string, realm: string,
                              service: string, token: string)
    ensures Basic(CredentialStoreFor(config), url) == (config.Username, config.Password)
    ensures RefreshToken(SetRefreshToken(CredentialStoreFor(config), realm, service, token), url, service) == ""
    ensures SetRefreshToken(CredentialStoreFor(config), realm, service, token) == CredentialStoreFor(config)
  {
  }
}
