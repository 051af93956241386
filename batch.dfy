/** `limit` and `process`: fetch, edit, upload and delete each source of a batch in order,
    skip the ones that fail, stop once the tweet's media limit is reached, and hand back the
    joined media ids. */
module Batch {
  import opened Text
  import opened RubyArray
  import opened Results
  import opened Filetypes
  import opened Sources
  import opened Registry

  /** Twitter's number of media per tweet. */
  const PictureLimit: int := 4

  /** An argument given to `limit`: something that answers `length`, or something that does not. */
  datatype Countable = Countable(length: nat) | Uncountable

  /** `limit(*args)`: the limit itself, or how far a length is above (>= 0) or below (< 0) it. */
  function Limit(args: seq<Countable>): (r: Result<int>)
    ensures |args| == 0 ==> r == Ok(PictureLimit)
    ensures |args| == 1 && args[0].Countable? ==> r.Ok? && r.value + PictureLimit == args[0].length
    ensures |args| == 1 && args[0].Countable? ==> (r.value < 0 <==> args[0].length < PictureLimit)
    ensures r.Err? <==> |args| > 1 || (|args| == 1 && args[0].Uncountable?)
    ensures r.Err? ==> r.error == ArgumentError
  {
    if |args| == 0 then Ok(PictureLimit)
    else if |args| == 1 then
      match args[0]
      case Countable(n) => Ok(n - PictureLimit)
      case Uncountable => Err(ArgumentError)
    else Err(ArgumentError)
  }

  /** An element of `pic_list`: nil, or anything else through its `to_s`. */
  datatype Pic = NilPic | Pic(text: string)

  function ToS(p: Pic): string
  {
    match p
    case NilPic => ""
    case Pic(t) => t
  }

  /** What the outside world does with one source: the HTTP answer if it is downloaded, the
      size of the local file if it is copied, whether the caller's block raises, and the
      upload client's media id (nil when the upload raises). */
  datatype Env = Env(response: Response, local: Option<nat>, blockRaises: bool, reply: Option<nat>)

  /** One pass through the `begin ... rescue` body: get, then the rest. */
  function Attempt(s: Staging, source: string, e: Env, hasBlock: bool, locked: set<FilePath>): Step<nat>
  {
    var g := Get(s, source, e.response, e.local);
    match g.out
    case Err(err) => Step(Err(err), g.next)
    case Ok(name) => Finish(g.next, name, e, hasBlock, locked)
  }

  /** The rest of the body once `name` is staged: edit it, upload it, delete it. */
  function Finish(s: Staging, name: string, e: Env, hasBlock: bool, locked: set<FilePath>): Step<nat>
  {
    match Edit(s, Many([name]), hasBlock)
    case Err(err) => Step(Err(err), s)
    case Ok(yielded) =>
      if yielded != [] && e.blockRaises then Step(Err(ExternalError), s)
      else
        match Upload(s, name, e.reply)
        case Err(err) => Step(Err(err), s)
        case Ok(id) => Step(Ok(id), Delete(s, Many([name]), locked).next)
  }

  /** The body of the `begin ... rescue` block, applied to the state, a source and its index. */
  type Body = (Staging, string, nat) -> Step<nat>

  /** The body `process` runs: `Attempt` with what the outside world does with the `k`-th source. */
  function AttemptBody(env: nat -> Env, hasBlock: bool, locked: set<FilePath>): Body
  {
    (st: Staging, source: string, k: nat) => Attempt(st, source, env(k), hasBlock, locked)
  }

  /** Where the `each` loop ends: the ids and sources collected, how many sources it
      attempted, and the state. */
  datatype Collected = Collected(ids: seq<nat>, sources: seq<string>, attempted: nat, next: Staging)

  /** `pic_list.each` from index `i`, with `break if limit(uploaded_media_ids) >= 0` first. */
  function Loop(s: Staging, items: seq<string>, i: nat, ids: seq<nat>, srcs: seq<string>, body: Body): Collected
    requires i <= |items|
    decreases |items| - i, 1
  {
    if i == |items| || Limit([Countable(|ids|)]).value >= 0 then Collected(ids, srcs, i, s)
    else Resume(body(s, items[i], i), items, i, ids, srcs, body)
  }

  /** The rest of the loop once the `i`-th source has been attempted with result `a`: a
      media id is collected with its source, an exception is swallowed. */
  function Resume(a: Step<nat>, items: seq<string>, i: nat, ids: seq<nat>, srcs: seq<string>, body: Body): Collected
    requires i < |items|
    decreases |items| - i, 0
  {
    match a.out
    case Ok(id) => Loop(a.next, items, i + 1, ids + [id], srcs + [items[i]], body)
    case Err(_) => Loop(a.next, items, i + 1, ids, srcs, body)
  }

  /** `successful_images[0...limit] unless limit(successful_images) < 0`. */
  function Trim<T>(xs: seq<T>): seq<T>
  {
    if Limit([Countable(|xs|)]).value < 0 then xs else xs[..PictureLimit]
  }

  function Decimals(ids: seq<nat>): (r: seq<string>)
    ensures |r| == |ids|
    ensures forall i :: 0 <= i < |ids| ==>
              |r[i]| >= 1 && AllDigits(r[i]) && ',' !in r[i] && ParseDecimal(r[i]) == ids[i]
  {
    var r := seq(|ids|, i requires 0 <= i < |ids| => Decimal(ids[i]));
    assert forall i :: 0 <= i < |ids| ==> ',' !in r[i] && ParseDecimal(r[i]) == ids[i] by {
      forall i | 0 <= i < |ids| ensures ',' !in r[i] && ParseDecimal(r[i]) == ids[i] {
        assert forall m :: 0 <= m < |r[i]| ==> IsDigit(r[i][m]);
        ParseDecimalOfDecimal(ids[i]);
      }
    }
    r
  }

  /** What `process` returns: `{}`, or a hash whose `:media_ids` key holds `ids.join(',')`,
      together with the line it writes to the bot's log. */
  datatype Reply = NoMedia | MediaIds(joined: string, logLine: string)

  /** `process(bot, pic_list, upload_options, block)`. */
  function Process(s: Staging, pics: Arg<Pic>, env: nat -> Env, hasBlock: bool, locked: set<FilePath>): Step<Reply>
  {
    var list := Wrap(pics);
    if list == [] || list == [Pic("")] then Step(Ok(NoMedia), s)
    else
      var items := seq(|list|, i requires 0 <= i < |list| => ToS(list[i]));
      var c := Loop(s, items, 0, [], [], AttemptBody(env, hasBlock, locked));
      Step(Respond(c.ids, c.sources), c.next)
  }

  /** The end of `process`: no media id raises NoUploadedFilesError; otherwise both lists
      are trimmed to the limit, the sources are logged and the ids joined. */
  function Respond(ids: seq<nat>, sources: seq<string>): Result<Reply>
  {
    if ids == [] then Err(NoUploadedFilesError)
    else Ok(MediaIds(Join(Decimals(Trim(ids)), ','), "Uploaded to Twitter: " + Join(Trim(sources), ' ')))
  }

  // ------------------------------------------------------ the reference: which items succeed

  /** Whether `get` stages a source, decided by the outside world alone: a download needs
      status "200", a whitelisted content-type and a non-empty body; a copy needs an accepted
      extension and a readable source file. */
  predicate Fetched(source: string, e: Env)
  {
    if IsUrl(source) then
      e.response.Response? && e.response.code == "200" && e.response.contentType.Some?
      && e.response.contentType.value in Supported && e.response.bodySize > 0
    else
      var ext := match CopyExtension(source) case Some(x) => x case None => "";
      Accepts(ext) && e.local.Some?
  }

  /** Whether a source goes through: it is staged, the block does not raise on it, and the
      upload client answers. The media id, or nil. */
  function Outcome(source: string, e: Env, hasBlock: bool): Option<nat>
  {
    if Fetched(source, e) && !(hasBlock && e.blockRaises) then e.reply else None
  }

  datatype Uploaded = Uploaded(source: string, id: nat)

  /** The success one source contributes, given what happens to it. */
  function Gain(source: string, out: Option<nat>): seq<Uploaded>
  {
    match out
    case Some(id) => [Uploaded(source, id)]
    case None => []
  }

  /** The sources among the first `j` that go through, with their media ids, in input
      order, given what happens to each source. */
  function KeptUpTo(items: seq<string>, outs: seq<Option<nat>>, j: nat): (r: seq<Uploaded>)
    requires |outs| == |items| && j <= |items|
    ensures |r| <= j
  {
    if j == 0 then [] else KeptUpTo(items, outs, j - 1) + Gain(items[j - 1], outs[j - 1])
  }

  /** What happens to each source of a batch. */
  function Outcomes(items: seq<string>, env: nat -> Env, hasBlock: bool): (r: seq<Option<nat>>)
    ensures |r| == |items|
  {
    seq(|items|, k requires 0 <= k < |items| => Outcome(items[k], env(k), hasBlock))
  }

  /** Every source of a batch that goes through, with its media id, in input order. */
  function Successes(items: seq<string>, env: nat -> Env, hasBlock: bool): seq<Uploaded>
  {
    KeptUpTo(items, Outcomes(items, env, hasBlock), |items|)
  }

  /** `outs` says what happens to each source. */
  predicate Predicts(items: seq<string>, outs: seq<Option<nat>>, env: nat -> Env, hasBlock: bool)
  {
    |outs| == |items|
    && forall k {:trigger Outcome(items[k], env(k), hasBlock)} :: 0 <= k < |items| ==> outs[k] == Outcome(items[k], env(k), hasBlock)
  }

  function IdsOf(us: seq<Uploaded>): (r: seq<nat>)
    ensures |r| == |us| && forall i :: 0 <= i < |us| ==> r[i] == us[i].id
  {
    seq(|us|, i requires 0 <= i < |us| => us[i].id)
  }

  function SourcesOf(us: seq<Uploaded>): (r: seq<string>)
    ensures |r| == |us| && forall i :: 0 <= i < |us| ==> r[i] == us[i].source
  {
    seq(|us|, i requires 0 <= i < |us| => us[i].source)
  }

  function Take<T>(xs: seq<T>, n: nat): seq<T>
  {
    if |xs| <= n then xs else xs[..n]
  }

  // ------------------------------------------------------------------------------ lemmas

  /** `get` stages a source exactly when the reference says so, whatever the (valid)
      state, and the staged name is registered with its file on disk. */
  lemma GetMatchesFetched(s: Staging, source: string, e: Env)
    requires Valid(s)
    ensures var g := Get(s, source, e.response, e.local);
      && Valid(g.next)
      && (g.out.Ok? <==> Fetched(source, e))
      && (g.out.Ok? ==> g.out.value in Files(g.next) && g.next.fileHash[g.out.value].path in g.next.disk)
  {
    if IsUrl(source) {
      DownloadMatchesFetched(s, e.response);
    } else {
      CopyMatchesFetched(s, source, e.local);
    }
  }

  /** A download stages its name exactly on status "200", a whitelisted content-type and a
      non-empty body. */
  lemma {:induction false} DownloadMatchesFetched(s: Staging, resp: Response)
    requires Valid(s)
    ensures var g := Download(s, resp);
      && Valid(g.next)
      && (g.out.Ok? <==> resp.Response? && resp.code == "200" && resp.contentType.Some?
                         && resp.contentType.value in Supported && resp.bodySize > 0)
      && (g.out.Ok? ==> g.out.value in Files(g.next) && g.next.fileHash[g.out.value].path in g.next.disk)
  {
    DownloadValid(s, resp);
    if resp.Response? {
      DownloadOutcome(s, resp.code, resp.contentType, resp.bodySize);
    }
    FilesCountCreations(Download(s, resp).next);
  }

  /** A copy stages its name exactly when the source's extension is accepted and the
      source file can be read. */
  lemma {:induction false} CopyMatchesFetched(s: Staging, source: string, local: Option<nat>)
    requires Valid(s)
    ensures var g := Copy(s, source, local);
      && Valid(g.next)
      && (g.out.Ok? <==> Accepts(match CopyExtension(source) case Some(x) => x case None => "") && local.Some?)
      && (g.out.Ok? ==> g.out.value in Files(g.next) && g.next.fileHash[g.out.value].path in g.next.disk)
  {
    CopyValid(s, source, local);
    CopyOutcome(s, source, local);
    FilesCountCreations(Copy(s, source, local).next);
  }

  /** `edit([name])` on a registered name: without a block it yields nothing, with one it
      yields once. */
  lemma {:induction false} EditStaged(s: Staging, name: string, hasBlock: bool)
    requires Valid(s) && name in Files(s)
    ensures Edit(s, Many([name]), hasBlock).Ok?
    ensures Edit(s, Many([name]), hasBlock).value != [] <==> hasBlock
  {
    IntersectMembers([name], Files(s));
    assert name in Intersect([name], Files(s));
    EditOutcome(s, Many([name]), hasBlock);
  }

  /** `upload` of a registered name whose file is on disk returns the client's answer. */
  lemma {:induction false} UploadStaged(s: Staging, name: string, reply: Option<nat>)
    requires Valid(s) && name in Files(s) && s.fileHash[name].path in s.disk
    ensures reply.None? ==> Upload(s, name, reply) == Err(ExternalError)
    ensures reply.Some? ==> Upload(s, name, reply) == Ok(reply.value)
  {
    FilesCountCreations(s);
    FetchPathAgree(s, name);
  }

  /** Once a name is staged, the rest of the body succeeds exactly when the block does not
      raise and the upload client answers, and it returns the client's media id. */
  lemma {:induction false} FinishOutcome(s: Staging, name: string, e: Env, hasBlock: bool, locked: set<FilePath>)
    requires Valid(s) && name in Files(s) && s.fileHash[name].path in s.disk
    ensures var a := Finish(s, name, e, hasBlock, locked);
      && Valid(a.next)
      && (a.out.Ok? <==> !(hasBlock && e.blockRaises) && e.reply.Some?)
      && (a.out.Ok? ==> a.out.value == e.reply.value)
  {
    EditStaged(s, name, hasBlock);
    UploadStaged(s, name, e.reply);
    DeleteValid(s, Many([name]), locked);
  }

  /** One attempt succeeds exactly when the reference says so, with the same media id,
      whatever the (valid) state; and it keeps the state valid. */
  lemma {:induction false} AttemptMatchesOutcome(s: Staging, source: string, e: Env, hasBlock: bool, locked: set<FilePath>)
    requires Valid(s)
    ensures var a := Attempt(s, source, e, hasBlock, locked);
      && Valid(a.next)
      && (a.out.Ok? <==> Outcome(source, e, hasBlock).Some?)
      && (a.out.Ok? ==> a.out.value == Outcome(source, e, hasBlock).value)
  {
    var g := Get(s, source, e.response, e.local);
    GetMatchesFetched(s, source, e);
    if g.out.Ok? {
      FinishOutcome(g.next, g.out.value, e, hasBlock, locked);
    }
  }

  /** A body keeps the state valid. */
  ghost predicate Keeps(body: Body)
  {
    forall st, source, k :: Valid(st) ==> Valid(body(st, source, k).next)
  }

  /** From a valid state, the body comes out on each source as `outs` predicts. */
  ghost predicate Foresees(body: Body, items: seq<string>, outs: seq<Option<nat>>)
    requires |outs| == |items|
  {
    forall st, k :: Valid(st) && 0 <= k < |items| ==>
      && (body(st, items[k], k).out.Ok? <==> outs[k].Some?)
      && (body(st, items[k], k).out.Ok? ==> body(st, items[k], k).out.value == outs[k].value)
  }

  /** The body of `process` keeps the state valid. */
  lemma AttemptKeeps(env: nat -> Env, hasBlock: bool, locked: set<FilePath>)
    ensures Keeps(AttemptBody(env, hasBlock, locked))
  {
    forall st, source, k: nat | Valid(st)
      ensures Valid(AttemptBody(env, hasBlock, locked)(st, source, k).next)
    {
      AttemptMatchesOutcome(st, source, env(k), hasBlock, locked);
    }
  }

  /** The body of `process` comes out on each source as the reference predicts. */
  lemma AttemptForesees(items: seq<string>, outs: seq<Option<nat>>, env: nat -> Env, hasBlock: bool, locked: set<FilePath>)
    requires Predicts(items, outs, env, hasBlock)
    ensures Foresees(AttemptBody(env, hasBlock, locked), items, outs)
  {
    forall st, k | Valid(st) && 0 <= k < |items|
      ensures var a := AttemptBody(env, hasBlock, locked)(st, items[k], k);
        (a.out.Ok? <==> outs[k].Some?) && (a.out.Ok? ==> a.out.value == outs[k].value)
    {
      assert outs[k] == Outcome(items[k], env(k), hasBlock);
      AttemptMatchesOutcome(st, items[k], env(k), hasBlock, locked);
    }
  }

  lemma PredictsOutcomes(items: seq<string>, env: nat -> Env, hasBlock: bool)
    ensures Predicts(items, Outcomes(items, env, hasBlock), env, hasBlock)
  {
  }

  /** A longer prefix's successes extend a shorter one's. */
  lemma {:induction false} KeptPrefix(items: seq<string>, outs: seq<Option<nat>>, i: nat, j: nat)
    requires |outs| == |items| && i <= j <= |items|
    ensures |KeptUpTo(items, outs, i)| <= |KeptUpTo(items, outs, j)|
    ensures KeptUpTo(items, outs, i) == KeptUpTo(items, outs, j)[..|KeptUpTo(items, outs, i)|]
    decreases j
  {
    if i < j {
      KeptPrefix(items, outs, i, j - 1);
    }
  }

  /** The state after running the body on the sources `i` to `j - 1`, one after the other. */
  function Chain(s: Staging, items: seq<string>, i: nat, j: nat, body: Body): Staging
    requires i <= j <= |items|
    decreases j - i
  {
    if i == j then s else Chain(body(s, items[i], i).next, items, i + 1, j, body)
  }

  /** A body that keeps the state valid keeps it valid over a run of sources. */
  lemma {:induction false} ChainValid(s: Staging, items: seq<string>, i: nat, j: nat, body: Body)
    requires Valid(s) && Keeps(body) && i <= j <= |items|
    ensures Valid(Chain(s, items, i, j, body))
    decreases j - i
  {
    if i < j {
      ChainValid(body(s, items[i], i).next, items, i + 1, j, body);
    }
  }

  /** The loop leaves the state its attempts, one after the other, lead to. */
  lemma {:induction false} LoopIsChain(s: Staging, items: seq<string>, i: nat, ids: seq<nat>, srcs: seq<string>, body: Body)
    requires i <= |items|
    ensures var c := Loop(s, items, i, ids, srcs, body);
      i <= c.attempted <= |items| && c.next == Chain(s, items, i, c.attempted, body)
    decreases |items| - i
  {
    if i < |items| && |ids| < PictureLimit {
      var a := body(s, items[i], i);
      assert Loop(s, items, i, ids, srcs, body) == Resume(a, items, i, ids, srcs, body);
      if a.out.Ok? {
        LoopIsChain(a.next, items, i + 1, ids + [a.out.value], srcs + [items[i]], body);
      } else {
        LoopIsChain(a.next, items, i + 1, ids, srcs, body);
      }
    }
  }

  /** A body that keeps the state valid keeps it valid over the whole loop. */
  lemma LoopValid(s: Staging, items: seq<string>, i: nat, ids: seq<nat>, srcs: seq<string>, body: Body)
    requires Valid(s) && Keeps(body) && i <= |items|
    ensures Valid(Loop(s, items, i, ids, srcs, body).next)
  {
    LoopIsChain(s, items, i, ids, srcs, body);
    ChainValid(s, items, i, Loop(s, items, i, ids, srcs, body).attempted, body);
  }

  /** How far the loop gets: ids and sources collected, sources attempted. */
  datatype Tally = Tally(ids: seq<nat>, sources: seq<string>, attempted: nat)

  /** The loop run on what happens to each source, without the registry. */
  function Run(items: seq<string>, outs: seq<Option<nat>>, i: nat, ids: seq<nat>, srcs: seq<string>): (r: Tally)
    requires |outs| == |items| && i <= |items|
    ensures i <= r.attempted <= |items|
    decreases |items| - i
  {
    if i == |items| || |ids| >= PictureLimit then Tally(ids, srcs, i)
    else
      match outs[i]
      case Some(id) => Run(items, outs, i + 1, ids + [id], srcs + [items[i]])
      case None => Run(items, outs, i + 1, ids, srcs)
  }

  /** From the `i`-th source on, each attempt the loop would make, one after the other,
      comes out as `outs` predicts. */
  ghost predicate Agrees(s: Staging, items: seq<string>, outs: seq<Option<nat>>, i: nat, body: Body)
    requires |outs| == |items| && i <= |items|
    decreases |items| - i
  {
    i == |items|
    || var a := body(s, items[i], i);
       && (a.out.Ok? <==> outs[i].Some?)
       && (a.out.Ok? ==> a.out.value == outs[i].value)
       && Agrees(a.next, items, outs, i + 1, body)
  }

  /** From a valid state, a body that keeps validity and comes out on each source as
      predicted comes out as predicted on a whole run. */
  lemma {:induction false} PredictedAgrees(s: Staging, items: seq<string>, outs: seq<Option<nat>>, i: nat, body: Body)
    requires Valid(s) && |outs| == |items| && i <= |items| && Keeps(body) && Foresees(body, items, outs)
    ensures Agrees(s, items, outs, i, body)
    decreases |items| - i
  {
    if i < |items| {
      PredictedAgrees(body(s, items[i], i).next, items, outs, i + 1, body);
    }
  }

  /** When the attempts come out as predicted, the loop over the registry gets exactly as
      far as the loop on predicted outcomes. */
  lemma {:induction false} LoopIsRun(s: Staging, items: seq<string>, outs: seq<Option<nat>>, i: nat, ids: seq<nat>, srcs: seq<string>, body: Body)
    requires |outs| == |items| && i <= |items| && Agrees(s, items, outs, i, body)
    ensures var c := Loop(s, items, i, ids, srcs, body);
      Tally(c.ids, c.sources, c.attempted) == Run(items, outs, i, ids, srcs)
    decreases |items| - i
  {
    if i < |items| && |ids| < PictureLimit {
      var a := body(s, items[i], i);
      assert Loop(s, items, i, ids, srcs, body) == Resume(a, items, i, ids, srcs, body);
      if outs[i].Some? {
        assert Run(items, outs, i, ids, srcs) == Run(items, outs, i + 1, ids + [outs[i].value], srcs + [items[i]]);
        LoopIsRun(a.next, items, outs, i + 1, ids + [outs[i].value], srcs + [items[i]], body);
      } else {
        assert Run(items, outs, i, ids, srcs) == Run(items, outs, i + 1, ids, srcs);
        LoopIsRun(a.next, items, outs, i + 1, ids, srcs, body);
      }
    }
  }

  /** From index `i` on, the loop collects the successes of the sources it attempts, in
      order. */
  lemma {:induction false} RunCollects(items: seq<string>, outs: seq<Option<nat>>, i: nat, ids: seq<nat>, srcs: seq<string>)
    requires |outs| == |items| && i <= |items|
    requires ids == IdsOf(KeptUpTo(items, outs, i))
    requires srcs == SourcesOf(KeptUpTo(items, outs, i))
    ensures var r := Run(items, outs, i, ids, srcs);
      && i <= r.attempted <= |items|
      && r.ids == IdsOf(KeptUpTo(items, outs, r.attempted))
      && r.sources == SourcesOf(KeptUpTo(items, outs, r.attempted))
    decreases |items| - i
  {
    if i < |items| && |ids| < PictureLimit {
      ProjectionsAppend(KeptUpTo(items, outs, i), Gain(items[i], outs[i]));
      if outs[i].Some? {
        RunCollects(items, outs, i + 1, ids + [outs[i].value], srcs + [items[i]]);
      } else {
        RunCollects(items, outs, i + 1, ids, srcs);
      }
    }
  }

  /** How many of the first `j` sources go through. */
  function Hits(outs: seq<Option<nat>>, j: nat): nat
    requires j <= |outs|
  {
    if j == 0 then 0 else Hits(outs, j - 1) + (if outs[j - 1].Some? then 1 else 0)
  }

  /** The successes among the first `j` sources are as many as their hits. */
  lemma {:induction false} HitsCount(items: seq<string>, outs: seq<Option<nat>>, j: nat)
    requires |outs| == |items| && j <= |items|
    ensures |KeptUpTo(items, outs, j)| == Hits(outs, j)
  {
    if j > 0 {
      HitsCount(items, outs, j - 1);
    }
  }

  /** The loop attempts sources from `i` on, and if it stops before the last source, the
      successes have reached the limit. */
  lemma {:induction false} RunStopsAtLimit(items: seq<string>, outs: seq<Option<nat>>, i: nat, ids: seq<nat>, srcs: seq<string>)
    requires |outs| == |items| && i <= |items|
    requires |ids| == Hits(outs, i) <= PictureLimit
    ensures var r := Run(items, outs, i, ids, srcs);
      && i <= r.attempted <= |items|
      && (r.attempted < |items| ==> Hits(outs, r.attempted) == PictureLimit)
    decreases |items| - i
  {
    if i < |items| && |ids| < PictureLimit {
      if outs[i].Some? {
        RunStopsAtLimit(items, outs, i + 1, ids + [outs[i].value], srcs + [items[i]]);
      } else {
        RunStopsAtLimit(items, outs, i + 1, ids, srcs);
      }
    }
  }

  /** The loop never stops before the source that brings the successes to the limit. */
  lemma {:induction false} RunStopsNoEarlier(items: seq<string>, outs: seq<Option<nat>>, i: nat, ids: seq<nat>, srcs: seq<string>)
    requires |outs| == |items| && i <= |items|
    requires |ids| == Hits(outs, i)
    requires i == 0 || Hits(outs, i - 1) < PictureLimit
    ensures var r := Run(items, outs, i, ids, srcs);
      r.attempted == 0 || Hits(outs, r.attempted - 1) < PictureLimit
    decreases |items| - i
  {
    if i < |items| && |ids| < PictureLimit {
      if outs[i].Some? {
        RunStopsNoEarlier(items, outs, i + 1, ids + [outs[i].value], srcs + [items[i]]);
      } else {
        RunStopsNoEarlier(items, outs, i + 1, ids, srcs);
      }
    }
  }

  lemma ProjectionsAppend(a: seq<Uploaded>, b: seq<Uploaded>)
    ensures IdsOf(a + b) == IdsOf(a) + IdsOf(b)
    ensures SourcesOf(a + b) == SourcesOf(a) + SourcesOf(b)
  {
  }

  /** The whole loop on predicted outcomes, from the start: it attempts sources in input
      order, keeps the first successes up to the limit, in input order, and stops after the
      last source or right after the source that brings the successes to the limit. */
  lemma {:induction false} RunFromStart(items: seq<string>, outs: seq<Option<nat>>)
    requires |outs| == |items|
    ensures var r := Run(items, outs, 0, [], []);
      var ups := Take(KeptUpTo(items, outs, |items|), PictureLimit as nat);
      && r.ids == IdsOf(ups) && r.sources == SourcesOf(ups)
      && |r.ids| == |r.sources| <= PictureLimit
      && r.attempted <= |items|
      && (r.attempted < |items| ==> |KeptUpTo(items, outs, r.attempted)| == PictureLimit)
      && (r.attempted == 0 || |KeptUpTo(items, outs, r.attempted - 1)| < PictureLimit)
  {
    RunCollects(items, outs, 0, [], []);
    RunStopsAtLimit(items, outs, 0, [], []);
    RunStopsNoEarlier(items, outs, 0, [], []);
    var r := Run(items, outs, 0, [], []);
    HitsCount(items, outs, r.attempted);
    if r.attempted > 0 {
      HitsCount(items, outs, r.attempted - 1);
    }
    StopsAtLimit(items, outs, r.attempted);
  }

  /** Where the loop stops, it holds exactly the first successes up to the limit. */
  lemma StopsAtLimit(items: seq<string>, outs: seq<Option<nat>>, n: nat)
    requires |outs| == |items| && n <= |items|
    requires n < |items| ==> |KeptUpTo(items, outs, n)| == PictureLimit
    requires n == 0 || |KeptUpTo(items, outs, n - 1)| < PictureLimit
    ensures KeptUpTo(items, outs, n) == Take(KeptUpTo(items, outs, |items|), PictureLimit as nat)
  {
    KeptPrefix(items, outs, n, |items|);
  }

  /** `process`: `[]` and `['']` give `{}` without touching anything; otherwise it raises
      NoUploadedFilesError iff no source goes through, and else returns the ids of the first
      successes (at most the limit), joined with ',' so that splitting at ',' gives them
      back, and logs their sources joined with ' '. The trim after the loop never cuts. */
  lemma {:induction false} ProcessOutcome(s: Staging, pics: Arg<Pic>, env: nat -> Env, hasBlock: bool, locked: set<FilePath>)
    requires Valid(s)
    ensures var list := Wrap(pics);
      var r := Process(s, pics, env, hasBlock, locked);
      && Valid(r.next)
      && ((list == [] || list == [Pic("")]) ==> r == Step(Ok(NoMedia), s))
      && (list != [] && list != [Pic("")] ==>
            var items := seq(|list|, i requires 0 <= i < |list| => ToS(list[i]));
            var ups := Take(Successes(items, env, hasBlock), PictureLimit as nat);
            && (r.out == Err(NoUploadedFilesError) <==> Successes(items, env, hasBlock) == [])
            && (r.out.Ok? ==>
                  && 1 <= |ups| <= PictureLimit
                  && r.out.value == MediaIds(Join(Decimals(IdsOf(ups)), ','), "Uploaded to Twitter: " + Join(SourcesOf(ups), ' '))
                  && Split(r.out.value.joined, ',') == Decimals(IdsOf(ups))))
  {
    var list := Wrap(pics);
    if list != [] && list != [Pic("")] {
      var items := seq(|list|, i requires 0 <= i < |list| => ToS(list[i]));
      var outs := Outcomes(items, env, hasBlock);
      var body := AttemptBody(env, hasBlock, locked);
      PredictsOutcomes(items, env, hasBlock);
      AttemptKeeps(env, hasBlock, locked);
      AttemptForesees(items, outs, env, hasBlock, locked);
      LoopValid(s, items, 0, [], [], body);
      PredictedAgrees(s, items, outs, 0, body);
      LoopIsRun(s, items, outs, 0, [], [], body);
      RunFromStart(items, outs);
      var r := Run(items, outs, 0, [], []);
      RespondOutcome(r.ids, r.sources, KeptUpTo(items, outs, |items|));
    }
  }

  /** The reply to the ids and sources the loop collected from the successes `all`. */
  lemma {:induction false} RespondOutcome(ids: seq<nat>, sources: seq<string>, all: seq<Uploaded>)
    requires ids == IdsOf(Take(all, PictureLimit as nat)) && sources == SourcesOf(Take(all, PictureLimit as nat))
    ensures var ups := Take(all, PictureLimit as nat);
      && (Respond(ids, sources) == Err(NoUploadedFilesError) <==> all == [])
      && (Respond(ids, sources).Ok? ==>
            && 1 <= |ups| <= PictureLimit
            && Respond(ids, sources).value
                 == MediaIds(Join(Decimals(IdsOf(ups)), ','), "Uploaded to Twitter: " + Join(SourcesOf(ups), ' '))
            && Split(Respond(ids, sources).value.joined, ',') == Decimals(IdsOf(ups)))
  {
    var ups := Take(all, PictureLimit as nat);
    if ids != [] {
      assert Trim(ids) == ids;
      assert Trim(sources) == sources;
      SplitJoin(Decimals(IdsOf(ups)), ',');
    }
  }

  /** The `:media_ids` string splits back at its commas into one decimal per media id, in
      order, each reading back as that id. */
  lemma {:induction false} MediaIdsReadBack(ids: seq<nat>)
    requires |ids| >= 1
    ensures var parts := Split(Join(Decimals(ids), ','), ',');
      && |parts| == |ids|
      && forall i :: 0 <= i < |ids| ==> AllDigits(parts[i]) && ParseDecimal(parts[i]) == ids[i]
  {
    SplitJoin(Decimals(ids), ',');
  }

  /** When the first four sources all go through, exactly those four are attempted and
      uploaded, however many sources follow. */
  lemma {:induction false} FirstFourSucceed(s: Staging, items: seq<string>, outs: seq<Option<nat>>,
                                            env: nat -> Env, hasBlock: bool, locked: set<FilePath>)
    requires Valid(s) && Predicts(items, outs, env, hasBlock) && |items| >= 4
    requires forall k :: 0 <= k < 4 ==> outs[k].Some?
    ensures var c := Loop(s, items, 0, [], [], AttemptBody(env, hasBlock, locked));
      && c.attempted == 4
      && c.sources == items[..4]
      && c.ids == [outs[0].value, outs[1].value, outs[2].value, outs[3].value]
  {
    var body := AttemptBody(env, hasBlock, locked);
    AttemptKeeps(env, hasBlock, locked);
    AttemptForesees(items, outs, env, hasBlock, locked);
    PredictedAgrees(s, items, outs, 0, body);
    LoopIsRun(s, items, outs, 0, [], [], body);
    RunFirstFour(items, outs);
  }

  lemma {:induction false} RunFirstFour(items: seq<string>, outs: seq<Option<nat>>)
    requires |outs| == |items| >= 4
    requires forall k :: 0 <= k < 4 ==> outs[k].Some?
    ensures var r := Run(items, outs, 0, [], []);
      && r.attempted == 4
      && r.sources == items[..4]
      && r.ids == [outs[0].value, outs[1].value, outs[2].value, outs[3].value]
  {
    var v := [outs[0].value, outs[1].value, outs[2].value, outs[3].value];
    assert v[..1] == [] + [outs[0].value] && items[..1] == [] + [items[0]];
    assert v[..2] == v[..1] + [outs[1].value] && items[..2] == items[..1] + [items[1]];
    assert v[..3] == v[..2] + [outs[2].value] && items[..3] == items[..2] + [items[2]];
    assert v == v[..3] + [outs[3].value] && items[..4] == items[..3] + [items[3]];
    assert Run(items, outs, 0, [], []) == Run(items, outs, 1, v[..1], items[..1]);
    assert Run(items, outs, 1, v[..1], items[..1]) == Run(items, outs, 2, v[..2], items[..2]);
    assert Run(items, outs, 2, v[..2], items[..2]) == Run(items, outs, 3, v[..3], items[..3]);
    assert Run(items, outs, 3, v[..3], items[..3]) == Run(items, outs, 4, v, items[..4]);
  }
}
