/** The `Ebooks::TweetPic` singleton as an object: its instance variables are fields, and
    each of its operations is a method that updates them in place. Every method is proved
    to do what the matching function of `Registry` or `Batch` says, so the lemmas proved
    there hold of the object. */
module TweetPicService {
  import opened Text
  import opened RubyArray
  import opened Results
  import opened Filetypes
  import opened Sources
  import opened Registry
  import opened Batch

  /** The paths yielded before the rest of the list, or the exception the rest raises. */
  function After(yielded: seq<FilePath>, rest: Result<seq<FilePath>>): Result<seq<FilePath>>
  {
    match rest
    case Ok(ps) => Ok(yielded + ps)
    case Err(e) => Err(e)
  }

  /** One step of the `each` in `edit`: the next name either yields its path or raises. */
  lemma YieldsStep(s: Staging, targets: seq<string>, i: nat, yielded: seq<FilePath>)
    requires i < |targets|
    ensures PathOf(s, targets[i]).Err? ==>
      After(yielded, Yields(s, targets[i..])) == Err(PathOf(s, targets[i]).error)
    ensures PathOf(s, targets[i]).Ok? ==>
      After(yielded, Yields(s, targets[i..]))
        == After(yielded + [PathOf(s, targets[i]).value], Yields(s, targets[i + 1..]))
  {
    assert targets[i..][0] == targets[i] && targets[i..][1..] == targets[i + 1..];
    if PathOf(s, targets[i]).Ok? && Yields(s, targets[i + 1..]).Ok? {
      var p := PathOf(s, targets[i]).value;
      assert yielded + ([p] + Yields(s, targets[i + 1..]).value)
          == (yielded + [p]) + Yields(s, targets[i + 1..]).value;
    }
  }

  /** Before the first name nothing is yielded; after the last nothing remains. */
  lemma YieldsEnds(s: Staging, targets: seq<string>, yielded: seq<FilePath>)
    ensures After([], Yields(s, targets[0..])) == Yields(s, targets)
    ensures After(yielded, Yields(s, targets[|targets|..])) == Ok(yielded)
  {
    assert targets[0..] == targets;
    if Yields(s, targets).Ok? {
      assert [] + Yields(s, targets).value == Yields(s, targets).value;
    }
    assert targets[|targets|..] == [];
    assert yielded + [] == yielded;
  }

  /** The names kept so far ahead of what the rest of the pass keeps. */
  function Prefixed(kept: seq<string>, rest: Swept): Swept
  {
    Swept(kept + rest.kept, rest.disk)
  }

  /** One name of the `delete_if` pass: it is removed, or kept ahead of the rest. */
  lemma SweepStep(s: Staging, disk: map<FilePath, nat>, q: seq<string>, i: nat, kept: seq<string>, locked: set<FilePath>)
    requires i < |q|
    ensures Removable(s, disk, q[i], locked) ==>
      Prefixed(kept, Sweep(s, disk, q[i..], locked))
        == Prefixed(kept, Sweep(s, disk - {s.fileHash[q[i]].path}, q[i + 1..], locked))
    ensures !Removable(s, disk, q[i], locked) ==>
      Prefixed(kept, Sweep(s, disk, q[i..], locked))
        == Prefixed(kept + [q[i]], Sweep(s, disk, q[i + 1..], locked))
  {
    assert q[i..][0] == q[i] && q[i..][1..] == q[i + 1..];
    if !Removable(s, disk, q[i], locked) {
      var rest := Sweep(s, disk, q[i + 1..], locked);
      assert kept + ([q[i]] + rest.kept) == (kept + [q[i]]) + rest.kept;
    }
  }

  /** Before the first name nothing is kept; after the last nothing remains. */
  lemma SweepEnds(s: Staging, disk0: map<FilePath, nat>, disk: map<FilePath, nat>, q: seq<string>, kept: seq<string>, locked: set<FilePath>)
    ensures Prefixed([], Sweep(s, disk0, q[0..], locked)) == Sweep(s, disk0, q, locked)
    ensures Prefixed(kept, Sweep(s, disk, q[|q|..], locked)) == Swept(kept, disk)
  {
    assert q[0..] == q;
    assert [] + Sweep(s, disk0, q, locked).kept == Sweep(s, disk0, q, locked).kept;
    assert q[|q|..] == [];
    assert kept + [] == kept;
  }

  class TweetPic {
    var hashDefined: bool               // @file_hash has been assigned
    var fileHash: map<string, Tempfile> // @file_hash
    var names: seq<string>              // the keys of @file_hash in insertion order
    var counter: nat                    // @file_variable
    var disk: map<FilePath, nat>        // backing files present on disk, with their size
    var deleteQueue: seq<string>        // @delete_queue
    var retries: nat                    // retries of `delete` scheduled and not yet fired

    /** The object's state as a value. */
    function Model(): Staging
      reads this
    {
      Staging(hashDefined, fileHash, names, counter, disk, deleteQueue, retries)
    }

    predicate Valid()
      reads this
    {
      Registry.Valid(Model())
    }

    /** Before the first call no instance variable is set. */
    constructor ()
      ensures Model() == Initial && Valid()
    {
      hashDefined := false;
      fileHash := map[];
      names := [];
      counter := 0;
      disk := map[];
      deleteQueue := [];
      retries := 0;
      InitialValid();
    }

    /** `file(file_extension)`. */
    method File(ext: string) returns (r: Result<string>)
      modifies this
      ensures Step(r, Model()) == Registry.File(old(Model()), ext)
    {
      hashDefined := true;
      var norm := Normalise(ext);
      if norm !in Supported {
        r := Err(FiletypeError);
        return;
      }
      counter := counter + 1;
      var name := Name(counter, norm);
      var t := Tempfile(FilePath(counter, norm));
      if name !in fileHash {
        names := names + [name];
      }
      fileHash := fileHash[name := t];
      disk := disk[t.path := 0];
      r := Ok(name);
    }

    /** `delete(trash_files)`: the `delete_if` pass over the recomputed queue, one name at a
        time, against the disk as the earlier removals left it. */
    method Delete(trash: Arg<string>, locked: set<FilePath>) returns (queue: seq<string>)
      modifies this
      ensures Step(Ok(queue), Model()) == Registry.Delete(old(Model()), trash, locked)
    {
      var q := DeleteQueue(Model(), Wrap(trash));
      var kept, d := SweepAll(q, locked);
      disk, deleteQueue, retries := d, kept, if kept != [] then retries + 1 else retries;
      queue := kept;
    }

    /** The `delete_if` pass over `q`, one name at a time, against the disk as the earlier
        removals left it: the names kept and the disk left. */
    method SweepAll(q: seq<string>, locked: set<FilePath>) returns (kept: seq<string>, d: map<FilePath, nat>)
      ensures Swept(kept, d) == Sweep(Model(), disk, q, locked)
    {
      d := disk;
      kept := [];
      var i := 0;
      SweepEnds(Model(), d, d, q, kept, locked);
      while i < |q|
        invariant 0 <= i <= |q|
        invariant Sweep(Model(), disk, q, locked) == Prefixed(kept, Sweep(Model(), d, q[i..], locked))
      {
        SweepStep(Model(), d, q, i, kept, locked);
        var name := q[i];
        if Removable(Model(), d, name, locked) {
          d := d - {fileHash[name].path};
        } else {
          kept := kept + [name];
        }
        i := i + 1;
      }
      SweepEnds(Model(), d, d, q, kept, locked);
    }

    /** The scheduler fires one scheduled retry of `delete`. */
    method FireRetry(locked: set<FilePath>) returns (queue: seq<string>)
      requires retries > 0
      modifies this
      ensures Step(Ok(queue), Model()) == Registry.FireRetry(old(Model()), locked)
    {
      retries := retries - 1;
      queue := Delete(Many([]), locked);
    }

    /** `download(uri)`. */
    method Download(resp: Response) returns (r: Result<string>)
      modifies this
      ensures Step(r, Model()) == Registry.Download(old(Model()), resp)
    {
      match resp
      case Unreachable =>
        r := Err(ExternalError);
      case Response(code, ct, size) =>
        if code != "200" {
          r := Err(HTTPResponseError);
        } else if ct.None? || ct.value !in Supported {
          r := Err(FiletypeError);
        } else {
          r := Receive(Supported[ct.value], size);
        }
    }

    /** The part of `download` after both checks. */
    method Receive(ext: string, size: nat) returns (r: Result<string>)
      modifies this
      ensures Step(r, Model()) == Registry.Receive(old(Model()), ext, size)
    {
      r := File(ext);
      if r.Ok? {
        disk := disk[fileHash[r.value].path := size];
        if size == 0 {
          r := Err(EmptyFileError);
        }
      }
    }

    /** `copy(source_filename)`. */
    method Copy(source: string, local: Option<nat>) returns (r: Result<string>)
      modifies this
      ensures Step(r, Model()) == Registry.Copy(old(Model()), source, local)
    {
      var ext := match CopyExtension(source) case Some(e) => e case None => "";
      r := File(ext);
      if r.Ok? {
        match local
        case None =>
          r := Err(ExternalError);
        case Some(size) =>
          disk := disk[fileHash[r.value].path := size];
      }
    }

    /** `get(source_file)`. */
    method Get(source: string, resp: Response, local: Option<nat>) returns (r: Result<string>)
      modifies this
      ensures Step(r, Model()) == Registry.Get(old(Model()), source, resp, local)
    {
      if IsUrl(source) {
        r := Download(resp);
      } else {
        r := Copy(source, local);
      }
    }

    /** `edit(file_list, &block)`: the paths yielded to the block, in order. */
    method Edit(list: Arg<string>, hasBlock: bool) returns (r: Result<seq<FilePath>>)
      ensures r == Registry.Edit(Model(), list, hasBlock)
    {
      if !hasBlock {
        return Ok([]);
      }
      var targets := Intersect(Wrap(list), Files(Model()));
      if targets == [] {
        return Err(NoSuchFileError);
      }
      r := PathsOf(targets);
    }

    /** `targets.each { |name| yield path(name) }`: the paths in order, or the exception the
        first failing `path` raises. */
    method PathsOf(targets: seq<string>) returns (r: Result<seq<FilePath>>)
      ensures r == Yields(Model(), targets)
    {
      var yielded: seq<FilePath> := [];
      var i := 0;
      YieldsEnds(Model(), targets, []);
      while i < |targets|
        invariant 0 <= i <= |targets|
        invariant Yields(Model(), targets) == After(yielded, Yields(Model(), targets[i..]))
      {
        YieldsStep(Model(), targets, i, yielded);
        if !hashDefined {
          return Err(NoMethodError);
        }
        if targets[i] !in fileHash {
          return Err(NoSuchFileError);
        }
        yielded := yielded + [fileHash[targets[i]].path];
        i := i + 1;
      }
      YieldsEnds(Model(), targets, yielded);
      r := Ok(yielded);
    }

    /** `upload(twitter, file_name, options)`. */
    method Upload(name: string, reply: Option<nat>) returns (r: Result<nat>)
      ensures r == Registry.Upload(Model(), name, reply)
    {
      if !hashDefined {
        return Err(NoMethodError);
      }
      if name !in fileHash {
        return Err(NoSuchFileError);
      }
      if fileHash[name].path !in disk {
        return Err(ExternalError);
      }
      match reply
      case None =>
        r := Err(ExternalError);
      case Some(id) =>
        r := Ok(id);
    }

    /** The `begin ... rescue` body of `process` for one source. */
    method Attempt(source: string, e: Env, hasBlock: bool, locked: set<FilePath>) returns (r: Result<nat>)
      modifies this
      ensures Step(r, Model()) == Batch.Attempt(old(Model()), source, e, hasBlock, locked)
    {
      var got := Get(source, e.response, e.local);
      if got.Err? {
        return Err(got.error);
      }
      var name := got.value;
      var edited := Edit(Many([name]), hasBlock);
      if edited.Err? {
        return Err(edited.error);
      }
      if edited.value != [] && e.blockRaises {
        return Err(ExternalError);
      }
      var id := Upload(name, e.reply);
      if id.Err? {
        return Err(id.error);
      }
      var _ := Delete(Many([name]), locked);
      r := Ok(id.value);
    }

    /** `process(bot, pic_list, upload_options, block)`. */
    method Process(pics: Arg<Pic>, env: nat -> Env, hasBlock: bool, locked: set<FilePath>) returns (r: Result<Reply>)
      modifies this
      ensures Step(r, Model()) == Batch.Process(old(Model()), pics, env, hasBlock, locked)
    {
      var list := Wrap(pics);
      if list == [] || list == [Pic("")] {
        return Ok(NoMedia);
      }
      var items := seq(|list|, i requires 0 <= i < |list| => ToS(list[i]));
      ghost var s0 := Model();
      ghost var body := AttemptBody(env, hasBlock, locked);
      var ids: seq<nat> := [];
      var sources: seq<string> := [];
      var i := 0;
      while i < |items|
        invariant 0 <= i <= |items|
        invariant Loop(Model(), items, i, ids, sources, body)
               == Loop(s0, items, 0, [], [], body)
      {
        if Limit([Countable(|ids|)]).value >= 0 {
          break;
        }
        ghost var pre := Model();
        var a := Attempt(items[i], env(i), hasBlock, locked);
        assert body(pre, items[i], i) == Step(a, Model());
        assert Loop(pre, items, i, ids, sources, body) == Resume(Step(a, Model()), items, i, ids, sources, body);
        if a.Ok? {
          ids := ids + [a.value];
          sources := sources + [items[i]];
        }
        i := i + 1;
      }
      assert Loop(s0, items, 0, [], [], body) == Collected(ids, sources, i, Model());
      r := Respond(ids, sources);
    }

    /** The end of `process`: trim both lists to the limit, log the sources, join the ids. */
    method Respond(ids: seq<nat>, sources: seq<string>) returns (r: Result<Reply>)
      ensures r == Batch.Respond(ids, sources)
    {
      if ids == [] {
        return Err(NoUploadedFilesError);
      }
      var logged := sources;
      if Limit([Countable(|logged|)]).value >= 0 {
        logged := logged[..PictureLimit];
      }
      var kept := ids;
      if Limit([Countable(|kept|)]).value >= 0 {
        kept := kept[..PictureLimit];
      }
      r := Ok(MediaIds(Join(Decimals(kept), ','), "Uploaded to Twitter: " + Join(logged, ' ')));
    }
  }
}
