/** The state of the `Ebooks::TweetPic` singleton as a value, and what each of its
    operations does to that state. The file system, the HTTP exchange and the upload client
    enter as parameters (see `Response`, the `local` size of a copied file, the `locked`
    paths and the upload `reply`). */
module Registry {
  import opened Text
  import opened RubyArray
  import opened Results
  import opened Filetypes
  import opened Sources

  /** The real path of a backing temp file. The directory, the per-process prefix and the
      random part Tempfile chooses are abstracted; the counter value and extension are kept. */
  datatype FilePath = FilePath(serial: nat, ext: string)

  /** The Tempfile object stored in the hash. */
  datatype Tempfile = Tempfile(path: FilePath)

  datatype Staging = Staging(
    hashDefined: bool,                // @file_hash has been assigned
    fileHash: map<string, Tempfile>,  // @file_hash
    names: seq<string>,               // the keys of @file_hash in insertion order
    counter: nat,                     // @file_variable (nil reads as 0)
    disk: map<FilePath, nat>,         // backing files present on disk, with their byte size
    queue: seq<string>,               // @delete_queue
    retries: nat)                     // retries of `delete` scheduled and not yet fired

  /** The outcome of one operation: its value or exception, and the state after it. */
  datatype Step<T> = Step(out: Result<T>, next: Staging)

  /** The state before the first call: no instance variable is set yet. */
  const Initial := Staging(false, map[], [], 0, map[], [], 0)

  /** The virtual filename `"#{@file_variable}#{file_extension}"`. */
  function Name(serial: nat, ext: string): string
  {
    Decimal(serial) + ext
  }

  predicate WellNamed(k: string, t: Tempfile)
  {
    StartsWithDot(t.path.ext) && k == Name(t.path.serial, t.path.ext)
  }

  /** What every reachable state satisfies: the n-th registered name holds counter value n,
      every key is named after its own counter value and extension, every file on disk
      belongs to a registered name, and the deletion queue is duplicate-free and registered. */
  predicate Valid(s: Staging)
  {
    && (!s.hashDefined ==> s.counter == 0)
    && |s.names| == s.counter
    && (forall i :: 0 <= i < |s.names| ==> s.names[i] in s.fileHash && s.fileHash[s.names[i]].path.serial == i + 1)
    && (forall k :: k in s.fileHash ==> k in s.names && WellNamed(k, s.fileHash[k]))
    && (forall p :: p in s.disk ==> 1 <= p.serial <= s.counter && s.fileHash[s.names[p.serial - 1]].path == p)
    && NoDups(s.queue)
    && (forall n :: n in s.queue ==> n in s.fileHash)
  }

  // ---------------------------------------------------------------- virtual file registry

  /** `files`. */
  function Files(s: Staging): seq<string>
  {
    if s.hashDefined then s.names else []
  }

  /** `fetch`: the stored Tempfile; a nil hash answers `has_key?` with NoMethodError. */
  function Fetch(s: Staging, name: string): Result<Tempfile>
  {
    if !s.hashDefined then Err(NoMethodError)
    else if name !in s.fileHash then Err(NoSuchFileError)
    else Ok(s.fileHash[name])
  }

  /** `path`: the real path of the stored Tempfile. */
  function PathOf(s: Staging, name: string): Result<FilePath>
  {
    match Fetch(s, name)
    case Err(e) => Err(e)
    case Ok(t) => Ok(t.path)
  }

  /** `file(file_extension)`: the hash is created before the extension is checked; a
      rejected extension raises FiletypeError before the counter moves. An accepted one
      advances the counter, creates an empty backing file and registers it. */
  function File(s: Staging, ext: string): (r: Step<string>)
    ensures r.out.Ok? ==> r.out.value in r.next.fileHash
    ensures r.out.Ok? ==> r.next.fileHash[r.out.value].path == FilePath(s.counter + 1, Normalise(ext))
    ensures r.out.Ok? ==> r.next.fileHash[r.out.value].path in r.next.disk
  {
    var norm := Normalise(ext);
    if norm !in Supported then Step(Err(FiletypeError), s.(hashDefined := true))
    else Register(s, norm)
  }

  /** The accepted branch of `file`: advance the counter, create an empty backing file and
      register it under `"<counter><norm>"`. */
  function Register(s: Staging, norm: string): (r: Step<string>)
    ensures r.out.Ok? && r.out.value in r.next.fileHash
    ensures r.next.fileHash[r.out.value].path == FilePath(s.counter + 1, norm)
    ensures r.next.fileHash[r.out.value].path in r.next.disk
  {
    var n := s.counter + 1;
    var name := Name(n, norm);
    var t := Tempfile(FilePath(n, norm));
    Step(Ok(name), s.(
      hashDefined := true,
      counter := n,
      fileHash := s.fileHash[name := t],
      names := if name in s.fileHash then s.names else s.names + [name],
      disk := s.disk[t.path := 0]))
  }

  lemma InitialValid()
    ensures Valid(Initial) && Files(Initial) == []
  {
  }

  /** Two different counter values never give the same virtual filename. */
  lemma NamesDiffer(a: nat, e1: string, b: nat, e2: string)
    requires StartsWithDot(e1) && StartsWithDot(e2) && a != b
    ensures Name(a, e1) != Name(b, e2)
  {
    DecimalPrefixUnique(a, e1, b, e2);
  }

  /** Every registered name holds a counter value no larger than the counter. */
  lemma SerialsBounded(s: Staging)
    requires Valid(s)
    ensures forall k :: k in s.fileHash ==> 1 <= s.fileHash[k].path.serial <= s.counter
    ensures forall k :: k in s.fileHash ==> s.names[s.fileHash[k].path.serial - 1] == k
  {
    forall k | k in s.fileHash
      ensures 1 <= s.fileHash[k].path.serial <= s.counter
      ensures s.names[s.fileHash[k].path.serial - 1] == k
    {
      var i :| 0 <= i < |s.names| && s.names[i] == k;
      assert s.fileHash[k].path.serial == i + 1;
    }
  }

  /** The name `file` is about to register is not registered yet. */
  lemma {:induction false} NextNameFresh(s: Staging, norm: string)
    requires Valid(s) && StartsWithDot(norm)
    ensures Name(s.counter + 1, norm) !in s.fileHash
  {
    SerialsBounded(s);
    forall k | k in s.fileHash
      ensures k != Name(s.counter + 1, norm)
    {
      var t := s.fileHash[k];
      NamesDiffer(t.path.serial, t.path.ext, s.counter + 1, norm);
    }
  }

  /** Distinct registered names are backed by distinct files. */
  lemma PathsDistinct(s: Staging)
    requires Valid(s)
    ensures forall a, b :: a in s.fileHash && b in s.fileHash && a != b ==> s.fileHash[a].path != s.fileHash[b].path
  {
  }

  /** The registered names are pairwise distinct and there are exactly as many of them as
      successful `file` calls so far (the counter). */
  lemma {:induction false} FilesCountCreations(s: Staging)
    requires Valid(s)
    ensures NoDups(Files(s))
    ensures |Files(s)| == s.counter
    ensures forall n :: n in Files(s) <==> s.hashDefined && n in s.fileHash
  {
    forall i, j | 0 <= i < j < |s.names| ensures s.names[i] != s.names[j] {
      assert s.fileHash[s.names[i]].path.serial != s.fileHash[s.names[j]].path.serial;
    }
  }

  /** The new name goes at the end of the insertion order, holding the next counter value. */
  lemma {:induction false} RegisterNames(s: Staging, norm: string)
    requires Valid(s) && StartsWithDot(norm)
    ensures var r := Register(s, norm).next;
      |r.names| == r.counter
      && forall i :: 0 <= i < |r.names| ==> r.names[i] in r.fileHash && r.fileHash[r.names[i]].path.serial == i + 1
  {
    NextNameFresh(s, norm);
    var r := Register(s, norm).next;
    var name := Name(s.counter + 1, norm);
    assert r.names == s.names + [name];
    forall i | 0 <= i < |r.names|
      ensures r.names[i] in r.fileHash && r.fileHash[r.names[i]].path.serial == i + 1
    {
      if i < |s.names| {
        assert r.names[i] == s.names[i] != name;
      }
    }
  }

  /** Every file on disk, the new empty one included, still belongs to its registered name. */
  lemma {:induction false} RegisterDisk(s: Staging, norm: string)
    requires Valid(s) && StartsWithDot(norm)
    ensures var r := Register(s, norm).next;
      forall p :: p in r.disk ==>
        1 <= p.serial <= r.counter == |r.names| && r.names[p.serial - 1] in r.fileHash
        && r.fileHash[r.names[p.serial - 1]].path == p
  {
    RegisterNames(s, norm);
    NextNameFresh(s, norm);
    var r := Register(s, norm).next;
    var name := Name(s.counter + 1, norm);
    assert r.names == s.names + [name];
    forall p | p in r.disk
      ensures 1 <= p.serial <= r.counter == |r.names| && r.names[p.serial - 1] in r.fileHash
      ensures r.fileHash[r.names[p.serial - 1]].path == p
    {
      if p != FilePath(s.counter + 1, norm) {
        assert r.names[p.serial - 1] == s.names[p.serial - 1] != name;
      }
    }
  }

  lemma {:induction false} RegisterValid(s: Staging, norm: string)
    requires Valid(s) && StartsWithDot(norm)
    ensures Valid(Register(s, norm).next)
  {
    RegisterNames(s, norm);
    RegisterDisk(s, norm);
    var r := Register(s, norm).next;
    var name := Name(s.counter + 1, norm);
    assert forall k :: k in r.fileHash ==> k in r.names && WellNamed(k, r.fileHash[k]) by {
      forall k | k in r.fileHash
        ensures k in r.names && WellNamed(k, r.fileHash[k])
      {
        if k != name {
          assert k in s.fileHash;
        }
      }
    }
  }

  lemma {:induction false} FileValid(s: Staging, ext: string)
    requires Valid(s)
    ensures Valid(File(s, ext).next)
  {
    var norm := Normalise(ext);
    if norm in Supported {
      RegisterValid(s, norm);
    }
  }

  /** A rejected extension leaves counter, hash, names and disk untouched; `files` is
      unchanged. An accepted one registers exactly one new name, `"<counter+1><ext>"` with the
      normalised extension (so ".JPEG" gives "<n>.jpeg", not "<n>.jpg"), and adds it at the
      end of `files`; every earlier name keeps its Tempfile. */
  lemma {:induction false} FileOutcome(s: Staging, ext: string)
    requires Valid(s)
    ensures File(s, ext).out.Ok? <==> Accepts(ext)
    ensures !Accepts(ext) ==>
      var r := File(s, ext);
      r.out == Err(FiletypeError) && r.next.counter == s.counter && r.next.fileHash == s.fileHash
      && r.next.names == s.names && r.next.disk == s.disk && Files(r.next) == Files(s)
    ensures Accepts(ext) ==>
      var r := File(s, ext);
      var name := Name(s.counter + 1, Normalise(ext));
      r.out == Ok(name) && r.next.counter == s.counter + 1 && name !in s.fileHash
      && Files(r.next) == Files(s) + [name]
      && r.next.fileHash == s.fileHash[name := Tempfile(FilePath(s.counter + 1, Normalise(ext)))]
      && Fetch(r.next, name) == Ok(Tempfile(FilePath(s.counter + 1, Normalise(ext))))
      && (forall n :: n != name && s.hashDefined ==> Fetch(r.next, n) == Fetch(s, n))
  {
    if Accepts(ext) {
      NextNameFresh(s, Normalise(ext));
    }
  }

  /** `fetch` and `path` raise NoSuchFileError exactly for unregistered names (once the hash
      exists), and `path` is the path of the Tempfile `fetch` returns. */
  lemma FetchPathAgree(s: Staging, name: string)
    requires Valid(s) && s.hashDefined
    ensures Fetch(s, name) == Err(NoSuchFileError) <==> name !in Files(s)
    ensures Fetch(s, name).Ok? <==> name in Files(s)
    ensures Fetch(s, name).Ok? ==> PathOf(s, name) == Ok(Fetch(s, name).value.path)
    ensures Fetch(s, name).Ok? ==> Fetch(s, name).value.path.serial <= |Files(s)|
  {
    FilesCountCreations(s);
    SerialsBounded(s);
  }

  // ---------------------------------------------------------------------- deletion queue

  /** `File.delete path(name)` succeeds: the name is registered and its backing file is
      present and not locked. Any other outcome raises, and `delete_if` keeps the name. */
  predicate Removable(s: Staging, disk: map<FilePath, nat>, name: string, locked: set<FilePath>)
  {
    s.hashDefined && name in s.fileHash && s.fileHash[name].path in disk && s.fileHash[name].path !in locked
  }

  datatype Swept = Swept(kept: seq<string>, disk: map<FilePath, nat>)

  /** `@delete_queue.delete_if { ... }`: tries each queued name in order against the disk as
      the earlier removals left it, and keeps the names whose removal failed. */
  function Sweep(s: Staging, disk: map<FilePath, nat>, q: seq<string>, locked: set<FilePath>): (r: Swept)
    ensures forall n :: n in r.kept ==> n in q
    ensures NoDups(q) ==> NoDups(r.kept)
    ensures r.disk.Keys <= disk.Keys
    decreases |q|
  {
    if q == [] then Swept([], disk)
    else if Removable(s, disk, q[0], locked) then Sweep(s, disk - {s.fileHash[q[0]].path}, q[1..], locked)
    else
      var rest := Sweep(s, disk, q[1..], locked);
      NoDupsTail(q);
      Swept([q[0]] + rest.kept, rest.disk)
  }

  /** The queue a `delete` pass works through: `(@delete_queue & trash_files) | files`. */
  function DeleteQueue(s: Staging, trash: seq<string>): seq<string>
  {
    Union(Intersect(s.queue, trash), Files(s))
  }

  /** `delete(trash_files)`: recomputes the queue, removes what it can, keeps the rest and
      schedules one more retry when anything is left. Returns the queue. A nil or missing
      argument is `Many([])`. */
  function Delete(s: Staging, trash: Arg<string>, locked: set<FilePath>): Step<seq<string>>
  {
    var sw := Sweep(s, s.disk, DeleteQueue(s, Wrap(trash)), locked);
    Step(Ok(sw.kept), s.(
      queue := sw.kept,
      disk := sw.disk,
      retries := if sw.kept != [] then s.retries + 1 else s.retries))
  }

  /** The scheduler fires one scheduled retry: the job calls `delete` with no argument. */
  function FireRetry(s: Staging, locked: set<FilePath>): Step<seq<string>>
    requires s.retries > 0
  {
    Delete(s.(retries := s.retries - 1), Many([]), locked)
  }

  /** The backing paths of the registered names in `q`. */
  function Owners(s: Staging, q: seq<string>): set<FilePath>
  {
    set n | n in q && s.hashDefined && n in s.fileHash :: s.fileHash[n].path
  }

  /** On a duplicate-free queue whose names have distinct paths, the sweep keeps exactly the
      names that were not removable at its start, and removes from disk exactly the unlocked
      paths of the queued names. */
  lemma SweepEffect(s: Staging, disk: map<FilePath, nat>, q: seq<string>, locked: set<FilePath>)
    requires forall a, b :: a in s.fileHash && b in s.fileHash && a != b ==> s.fileHash[a].path != s.fileHash[b].path
    requires NoDups(q)
    ensures forall n :: n in Sweep(s, disk, q, locked).kept <==> n in q && !Removable(s, disk, n, locked)
    ensures Sweep(s, disk, q, locked).disk == disk - (Owners(s, q) - locked)
  {
    SweepKept(s, disk, q, locked);
    SweepDisk(s, disk, q, locked);
  }

  /** The names a sweep keeps are those of the queue not removable at its start. */
  lemma {:induction false} SweepKept(s: Staging, disk: map<FilePath, nat>, q: seq<string>, locked: set<FilePath>)
    requires forall a, b :: a in s.fileHash && b in s.fileHash && a != b ==> s.fileHash[a].path != s.fileHash[b].path
    requires NoDups(q)
    ensures forall n :: n in Sweep(s, disk, q, locked).kept <==> n in q && !Removable(s, disk, n, locked)
    decreases |q|
  {
    if q != [] {
      var n0 := q[0];
      var rest := q[1..];
      NoDupsTail(q);
      assert forall n :: n in q <==> n == n0 || n in rest;
      if Removable(s, disk, n0, locked) {
        var p0 := s.fileHash[n0].path;
        var d1 := disk - {p0};
        assert Sweep(s, disk, q, locked) == Sweep(s, d1, rest, locked);
        SweepKept(s, d1, rest, locked);
        forall n | n in rest
          ensures Removable(s, d1, n, locked) <==> Removable(s, disk, n, locked)
        {
          if s.hashDefined && n in s.fileHash {
            assert s.fileHash[n].path != p0;
          }
        }
      } else {
        assert Sweep(s, disk, q, locked).kept == [n0] + Sweep(s, disk, rest, locked).kept;
        SweepKept(s, disk, rest, locked);
      }
    }
  }

  /** Whatever the queue, a sweep removes from disk exactly the unlocked paths of its
      registered names. */
  lemma {:induction false} SweepDisk(s: Staging, disk: map<FilePath, nat>, q: seq<string>, locked: set<FilePath>)
    ensures Sweep(s, disk, q, locked).disk == disk - (Owners(s, q) - locked)
    decreases |q|
  {
    if q != [] {
      var n0 := q[0];
      var rest := q[1..];
      assert forall n :: n in q <==> n == n0 || n in rest;
      if Removable(s, disk, n0, locked) {
        var p0 := s.fileHash[n0].path;
        var d1 := disk - {p0};
        assert Sweep(s, disk, q, locked) == Sweep(s, d1, rest, locked);
        SweepDisk(s, d1, rest, locked);
        assert Owners(s, q) == Owners(s, rest) + {p0};
      } else {
        assert Sweep(s, disk, q, locked).disk == Sweep(s, disk, rest, locked).disk;
        SweepDisk(s, disk, rest, locked);
        if s.hashDefined && n0 in s.fileHash {
          assert Owners(s, q) == Owners(s, rest) + {s.fileHash[n0].path};
        } else {
          assert Owners(s, q) == Owners(s, rest);
        }
      }
    }
  }

  /** Whatever the argument, a pass attempts every registered name: the intersection with
      the old queue only picks registered names, and the union with `files` adds all others. */
  lemma {:induction false} DeleteAttemptsEveryName(s: Staging, trash: seq<string>)
    requires Valid(s)
    ensures NoDups(DeleteQueue(s, trash))
    ensures forall n :: n in DeleteQueue(s, trash) <==> n in Files(s)
  {
    UnionMembers(Intersect(s.queue, trash), Files(s));
    IntersectMembers(s.queue, trash);
  }

  lemma {:induction false} DeleteValid(s: Staging, trash: Arg<string>, locked: set<FilePath>)
    requires Valid(s)
    ensures Valid(Delete(s, trash, locked).next)
  {
    DeleteAttemptsEveryName(s, Wrap(trash));
  }

  /** A pass never removes a key from the hash: `files`, `fetch` and `path` answer as
      before. */
  lemma DeleteKeepsKeys(s: Staging, trash: Arg<string>, locked: set<FilePath>)
    ensures var r := Delete(s, trash, locked);
      && r.next.fileHash == s.fileHash && r.next.names == s.names && r.next.counter == s.counter
      && r.next.hashDefined == s.hashDefined && Files(r.next) == Files(s)
  {
  }

  /** The queue a pass returns (and keeps) holds, without repeats, exactly the registered
      names whose file could not be removed: already gone, or locked. A retry is scheduled
      iff that queue is non-empty. */
  lemma {:induction false} DeleteQueueOutcome(s: Staging, trash: Arg<string>, locked: set<FilePath>)
    requires Valid(s)
    ensures var r := Delete(s, trash, locked);
      && r.out.Ok? && r.next.queue == r.out.value
      && NoDups(r.out.value)
      && (forall n :: n in r.out.value ==> n in s.fileHash)
      && (forall n :: n in r.out.value <==> n in Files(s) && !Removable(s, s.disk, n, locked))
      && r.next.retries == (if r.out.value != [] then s.retries + 1 else s.retries)
  {
    var q := DeleteQueue(s, Wrap(trash));
    DeleteAttemptsEveryName(s, Wrap(trash));
    PathsDistinct(s);
    SweepKept(s, s.disk, q, locked);
  }

  /** Since every registered name is attempted, a pass leaves on disk exactly the locked
      backing files, with their sizes. */
  lemma {:induction false} DeleteDiskOutcome(s: Staging, trash: Arg<string>, locked: set<FilePath>)
    requires Valid(s)
    ensures var r := Delete(s, trash, locked);
      && (forall p :: p in r.next.disk <==> p in s.disk && p in locked)
      && (forall p :: p in r.next.disk ==> r.next.disk[p] == s.disk[p])
  {
    var q := DeleteQueue(s, Wrap(trash));
    DeleteAttemptsEveryName(s, Wrap(trash));
    SweepDisk(s, s.disk, q, locked);
    forall p | p in s.disk ensures p in Owners(s, q) {
      var k := s.names[p.serial - 1];
      assert k in s.fileHash && s.fileHash[k].path == p;
      assert k in q;
    }
  }

  /** Once some registered name's file is gone from disk, every later pass keeps that name
      (File.delete raises on a missing file) and schedules yet another retry. */
  lemma {:induction false} DeleteNeverDrains(s: Staging, gone: string, trash: Arg<string>, locked: set<FilePath>)
    requires Valid(s) && gone in Files(s) && s.fileHash[gone].path !in s.disk
    ensures gone in Delete(s, trash, locked).out.value
    ensures Delete(s, trash, locked).next.retries == s.retries + 1
  {
    DeleteQueueOutcome(s, trash, locked);
  }

  // ------------------------------------------------------------- source dispatch, fetching

  /** What the HTTP exchange answers: nothing at all (malformed URI, connection failure), or
      a status code, the content-type header (nil when absent) and the size of the body
      written to the backing file. */
  datatype Response = Unreachable | Response(code: string, contentType: Option<string>, bodySize: nat)

  /** `download(uri)`: status "200" and a content-type that is literally a whitelist key are
      required before any entry is created; the entry then takes the canonical extension;
      an empty body raises EmptyFileError with the entry left registered. */
  function Download(s: Staging, resp: Response): Step<string>
  {
    match resp
    case Unreachable => Step(Err(ExternalError), s)
    case Response(code, ct, size) =>
      if code != "200" then Step(Err(HTTPResponseError), s)
      else if ct.None? || ct.value !in Supported then Step(Err(FiletypeError), s)
      else Receive(s, Supported[ct.value], size)
  }

  /** The part of `download` after both checks: a new entry with extension `ext` receives a
      body of `size` bytes; an empty body raises EmptyFileError and leaves the entry. */
  function Receive(s: Staging, ext: string, size: nat): Step<string>
  {
    var f := File(s, ext);
    match f.out
    case Err(e) => Step(Err(e), f.next)
    case Ok(name) =>
      var s2 := f.next.(disk := f.next.disk[f.next.fileHash[name].path := size]);
      if size == 0 then Step(Err(EmptyFileError), s2) else Step(Ok(name), s2)
  }

  /** `copy(source_filename)`: `local` is the byte size of the source file, nil when it
      cannot be copied. The extension check comes first; a failed copy leaves the new, empty
      entry registered. An empty source file is copied without complaint. */
  function Copy(s: Staging, source: string, local: Option<nat>): Step<string>
  {
    var ext := match CopyExtension(source) case Some(e) => e case None => "";
    var f := File(s, ext);
    match f.out
    case Err(e) => Step(Err(e), f.next)
    case Ok(name) =>
      match local
      case None => Step(Err(ExternalError), f.next)
      case Some(size) => Step(Ok(name), f.next.(disk := f.next.disk[f.next.fileHash[name].path := size]))
  }

  /** `get(source_file)`. */
  function Get(s: Staging, source: string, resp: Response, local: Option<nat>): Step<string>
  {
    if IsUrl(source) then Download(s, resp) else Copy(s, source, local)
  }

  /** Writing bytes into a file already on disk keeps the state valid. */
  lemma ResizeValid(s: Staging, p: FilePath, size: nat)
    requires Valid(s) && p in s.disk
    ensures Valid(s.(disk := s.disk[p := size]))
  {
  }

  lemma {:induction false} ReceiveValid(s: Staging, ext: string, size: nat)
    requires Valid(s)
    ensures Valid(Receive(s, ext, size).next)
  {
    var f := File(s, ext);
    FileValid(s, ext);
    if f.out.Ok? {
      ResizeValid(f.next, f.next.fileHash[f.out.value].path, size);
    }
  }

  lemma {:induction false} DownloadValid(s: Staging, resp: Response)
    requires Valid(s)
    ensures Valid(Download(s, resp).next)
  {
    if resp.Response? && resp.code == "200" && resp.contentType.Some? && resp.contentType.value in Supported {
      ReceiveValid(s, Supported[resp.contentType.value], resp.bodySize);
    }
  }

  lemma {:induction false} CopyValid(s: Staging, source: string, local: Option<nat>)
    requires Valid(s)
    ensures Valid(Copy(s, source, local).next)
  {
    var ext := match CopyExtension(source) case Some(e) => e case None => "";
    var f := File(s, ext);
    FileValid(s, ext);
    if f.out.Ok? && local.Some? {
      ResizeValid(f.next, f.next.fileHash[f.out.value].path, local.value);
    }
  }

  lemma GetValid(s: Staging, source: string, resp: Response, local: Option<nat>)
    requires Valid(s)
    ensures Valid(Get(s, source, resp, local).next)
  {
    DownloadValid(s, resp);
    CopyValid(s, source, local);
  }

  /** The three errors of `download` and its success: a bad status or an unlisted
      content-type (compared as given, no lower-casing) leave the registry as it was; an
      accepted one registers `"<counter+1><canonical ext>"` holding the body, and an empty
      body raises EmptyFileError with that entry still registered. */
  lemma {:induction false} DownloadOutcome(s: Staging, code: string, ct: Option<string>, size: nat)
    requires Valid(s)
    ensures var r := Download(s, Response(code, ct, size));
      && (code != "200" ==> r == Step(Err(HTTPResponseError), s))
      && (code == "200" && (ct.None? || ct.value !in Supported) ==> r == Step(Err(FiletypeError), s))
      && (code == "200" && ct.Some? && ct.value in Supported ==>
            var name := Name(s.counter + 1, Supported[ct.value]);
            && name in Files(r.next) && name !in s.fileHash
            && Files(r.next) == Files(s) + [name]
            && PathOf(r.next, name) == Ok(FilePath(s.counter + 1, Supported[ct.value]))
            && FilePath(s.counter + 1, Supported[ct.value]) in r.next.disk
            && r.next.disk[FilePath(s.counter + 1, Supported[ct.value])] == size
            && r.out == (if size == 0 then Err(EmptyFileError) else Ok(name)))
  {
    if code == "200" && ct.Some? && ct.value in Supported {
      var ext := Supported[ct.value];
      assert Download(s, Response(code, ct, size)) == Receive(s, ext, size);
      CanonicalIsFixed();
      assert Normalise(ext) == ext;
      ReceiveOutcome(s, ext, size);
    }
  }

  /** A body received under an accepted extension registers `"<counter+1><ext>"` holding it. */
  lemma {:induction false} ReceiveOutcome(s: Staging, ext: string, size: nat)
    requires Valid(s) && Accepts(ext)
    ensures var r := Receive(s, ext, size);
      var name := Name(s.counter + 1, Normalise(ext));
      var p := FilePath(s.counter + 1, Normalise(ext));
      && name in Files(r.next) && name !in s.fileHash
      && Files(r.next) == Files(s) + [name]
      && PathOf(r.next, name) == Ok(p)
      && p in r.next.disk && r.next.disk[p] == size
      && r.out == (if size == 0 then Err(EmptyFileError) else Ok(name))
  {
    FileOutcome(s, ext);
  }

  /** `copy` raises FiletypeError, without registering anything, exactly when the source's
      extension (or "" when the regex does not match) is not accepted by `file`; otherwise it
      registers one entry holding the source's bytes, an empty source included. */
  lemma {:induction false} CopyOutcome(s: Staging, source: string, local: Option<nat>)
    requires Valid(s)
    ensures var ext := match CopyExtension(source) case Some(e) => e case None => "";
      var r := Copy(s, source, local);
      && (r.out == Err(FiletypeError) <==> !Accepts(ext))
      && (!Accepts(ext) ==> r.next.fileHash == s.fileHash && r.next.counter == s.counter && r.next.disk == s.disk)
      && (Accepts(ext) ==> Files(r.next) == Files(s) + [Name(s.counter + 1, Normalise(ext))])
      && (Accepts(ext) && local.Some? ==>
            r.out == Ok(Name(s.counter + 1, Normalise(ext)))
            && r.next.disk[FilePath(s.counter + 1, Normalise(ext))] == local.value)
  {
    var ext := match CopyExtension(source) case Some(e) => e case None => "";
    FileOutcome(s, ext);
  }

  /** On a one-line source, `get` downloads exactly when the source starts with `http://`
      or `https://` in any letter case, and copies otherwise; a source without a colon is
      always copied. */
  lemma {:induction false} GetDispatch(s: Staging, source: string, resp: Response, local: Option<nat>)
    requires '\n' !in source
    ensures Get(s, source, resp, local) == (if UrlAt(source, 0) then Download(s, resp) else Copy(s, source, local))
    ensures ':' !in source ==> Get(s, source, resp, local) == Copy(s, source, local)
  {
    IsUrlOneLine(source);
    if ':' !in source {
      PathIsNotUrl(source);
    }
  }

  /** A source the extension regex does not match (no dot, or a dot followed by anything
      but word characters up to the line end) gets "" as its extension, which `file` turns
      into "." and rejects before anything but the empty hash is staged. */
  lemma {:induction false} CopyWithoutExtension(s: Staging, source: string, local: Option<nat>)
    requires CopyExtension(source).None?
    ensures Copy(s, source, local) == Step(Err(FiletypeError), s.(hashDefined := true))
  {
    assert Normalise("") == ".";
  }

  // ------------------------------------------------------------------------ edit, upload

  /** The paths `path` gives for `names`, in order, up to the first lookup that raises. */
  function Yields(s: Staging, names: seq<string>): (r: Result<seq<FilePath>>)
    ensures r.Ok? ==> |r.value| == |names|
    ensures r.Ok? ==> forall i :: 0 <= i < |names| ==> PathOf(s, names[i]) == Ok(r.value[i])
    decreases |names|
  {
    if names == [] then Ok([])
    else
      match PathOf(s, names[0])
      case Err(e) => Err(e)
      case Ok(p) =>
        match Yields(s, names[1..])
        case Err(e) => Err(e)
        case Ok(ps) => Ok([p] + ps)
  }

  /** `edit(file_list, &block)`: the paths yielded to the block, in order. Without a block
      it returns at once and yields nothing. */
  function Edit(s: Staging, list: Arg<string>, hasBlock: bool): Result<seq<FilePath>>
  {
    if !hasBlock then Ok([])
    else
      var names := Intersect(Wrap(list), Files(s));
      if names == [] then Err(NoSuchFileError) else Yields(s, names)
  }

  /** With a block, `edit` yields once for each registered name of its argument, in the
      argument's order and without repeats, and raises NoSuchFileError when none is
      registered. Without a block it does nothing. */
  lemma {:induction false} EditOutcome(s: Staging, list: Arg<string>, hasBlock: bool)
    requires Valid(s)
    ensures !hasBlock ==> Edit(s, list, hasBlock) == Ok([])
    ensures hasBlock ==>
      var names := Intersect(Wrap(list), Files(s));
      && (Edit(s, list, hasBlock) == Err(NoSuchFileError) <==> forall n :: n in Wrap(list) ==> n !in Files(s))
      && (names != [] ==>
            && Edit(s, list, hasBlock).Ok?
            && |Edit(s, list, hasBlock).value| == |names|
            && (forall i :: 0 <= i < |names| ==> Edit(s, list, hasBlock).value[i] == s.fileHash[names[i]].path))
  {
    if hasBlock {
      var names := Intersect(Wrap(list), Files(s));
      IntersectMembers(Wrap(list), Files(s));
      FilesCountCreations(s);
      if names != [] {
        YieldsRegistered(s, names);
      }
    }
  }

  lemma {:induction false} YieldsRegistered(s: Staging, names: seq<string>)
    requires s.hashDefined && forall n :: n in names ==> n in s.fileHash
    ensures Yields(s, names).Ok?
    decreases |names|
  {
    if names != [] {
      assert forall n :: n in names[1..] ==> n in names;
      YieldsRegistered(s, names[1..]);
    }
  }

  /** `upload(twitter, file_name, options)`: `reply` is what the upload client answers, nil
      when it raises. A file missing from disk makes `File.open` raise. */
  function Upload(s: Staging, name: string, reply: Option<nat>): Result<nat>
  {
    match PathOf(s, name)
    case Err(e) => Err(e)
    case Ok(p) =>
      if p !in s.disk then Err(ExternalError)
      else match reply
        case None => Err(ExternalError)
        case Some(id) => Ok(id)
  }

  /** `upload` raises NoSuchFileError for an unregistered name, and does not look at the
      file's size: a registered, present, empty file is uploaded like any other. */
  lemma UploadOutcome(s: Staging, name: string, id: nat)
    requires Valid(s) && s.hashDefined
    ensures name !in Files(s) ==> Upload(s, name, Some(id)) == Err(NoSuchFileError)
    ensures name in Files(s) && s.fileHash[name].path in s.disk ==> Upload(s, name, Some(id)) == Ok(id)
    ensures name in Files(s) && s.fileHash[name].path in s.disk && s.disk[s.fileHash[name].path] == 0 ==>
      Upload(s, name, Some(id)) == Ok(id)
  {
    FilesCountCreations(s);
  }
}
