/** Requests to a file system server (lib/libfs/FileSystemServer.cpp): who is answered, who is kept for a retry, and until when. */
module FileServer {
  import opened Basics
  import ProcessModel

  type Timer = ProcessModel.Timer

  datatype Action =
    | CreateFile | ReadFile | WriteFile | StatFile | DeleteFile | WaitFile
    | MountFileSystem | WaitFileSystem | GetFileSystems

  datatype Result =
    | Success | InvalidArgument | NotFound | RetryAgain | IOError | PermissionDenied
    | AlreadyExists | NotSupported | RedirectRequest | IpcError | TimedOut

  /** `id` tells requests apart; everything else a handler reads from the message is decided in `Env`. */
  datatype Message = Message(id: nat, action: Action, timeout: Timer)

  datatype Response = Response(id: nat, result: Result)

  datatype Mount = Mount(path: string, procID: nat)

  /** What the files, the file cache, the clock and the caller's memory answer while one request is processed. */
  datatype Env = Env(
    inodeKnown: bool, ioResult: Result,
    waitSetRead: bool, ready: bool, now: nat,
    pathRead: bool, path: string, found: bool,
    statRead: bool, created: bool, registered: Result,
    unregistered: Result, status: bool, statWritten: bool)

  // ----------------------------------------------------------------- mounts

  predicate Under(m: Mount, path: string) {
    m.path != "" && m.path <= path
  }

  predicate UnderAny(mounts: seq<Mount>, path: string) {
    exists j :: 0 <= j < |mounts| && Under(mounts[j], path)
  }

  /** Mount `i` is the first of the longest mounts that the path lies under. */
  ghost predicate BestMount(mounts: seq<Mount>, path: string, i: nat) {
    && i < |mounts| && Under(mounts[i], path)
    && (forall j :: 0 <= j < |mounts| && Under(mounts[j], path) ==> |mounts[j].path| <= |mounts[i].path|)
    && (forall j :: 0 <= j < i && Under(mounts[j], path) ==> |mounts[j].path| < |mounts[i].path|)
  }

  /** The search of redirectRequest. */
  method FindMount(mounts: seq<Mount>, path: string) returns (best: Option<nat>)
    ensures best.Some? ==> BestMount(mounts, path, best.value)
    ensures best.None? <==> !UnderAny(mounts, path)
  {
    var saved := 0;
    best := None;
    for i := 0 to |mounts|
      invariant best.None? ==> saved == 0 && forall j :: 0 <= j < i ==> !Under(mounts[j], path)
      invariant best.Some? ==>
        best.value < i && saved == |mounts[best.value].path| && BestMount(mounts[..i], path, best.value)
    {
      if mounts[i].path != "" && |mounts[i].path| > saved && mounts[i].path <= path {
        saved := |mounts[i].path|;
        best := Some(i);
      }
    }
    assert mounts[..|mounts|] == mounts;
  }

  /** What mountHandler does to the table: an entry for the path is renewed, else the first free one is taken. */
  ghost predicate Mounted(before: seq<Mount>, after: seq<Mount>, path: string, from: nat, ok: bool) {
    if exists j :: 0 <= j < |before| && before[j].path == path then
      ok && exists i :: FirstWith(before, path, i) && after == before[i := Mount(path, from)]
    else if exists j :: 0 <= j < |before| && before[j].path == "" then
      ok && exists i :: FirstWith(before, "", i) && after == before[i := Mount(path, from)]
    else !ok && after == before
  }

  ghost predicate FirstWith(mounts: seq<Mount>, path: string, i: int) {
    0 <= i < |mounts| && mounts[i].path == path && forall j :: 0 <= j < i ==> mounts[j].path != path
  }

  /** A mount serves exactly the paths that lie under it, besides those that were served before. */
  lemma MountServes(before: seq<Mount>, after: seq<Mount>, path: string, from: nat, p: string)
    requires Mounted(before, after, path, from, true)
    ensures UnderAny(after, p) <==> UnderAny(before, p) || (path != "" && path <= p)
  {
    var i :| 0 <= i < |before| && after == before[i := Mount(path, from)] && (before[i].path == path || before[i].path == "");
    assert after[i] == Mount(path, from);
    if UnderAny(before, p) {
      var j :| 0 <= j < |before| && Under(before[j], p);
      assert Under(after[j], p);
    }
    if path != "" && path <= p {
      assert Under(after[i], p);
    }
    if UnderAny(after, p) {
      var j :| 0 <= j < |after| && Under(after[j], p);
      if j != i {
        assert Under(before[j], p);
      }
    }
  }

  predicate Redirected(root: bool, mounts: seq<Mount>, env: Env) {
    root && UnderAny(mounts, env.path)
  }

  // --------------------------------------------------------------- decisions

  /** waitFileHandler: a deadline only turns a retry into a timeout. */
  function DecideWait(msg: Message, env: Env): Result {
    if !env.waitSetRead then IOError
    else if env.ready then Success
    else if msg.timeout.frequency != 0 && ProcessModel.IsExpired(msg.timeout, env.now) then TimedOut
    else RetryAgain
  }

  function DecidePath(root: bool, mounts: seq<Mount>, msg: Message, env: Env): Result {
    if !env.pathRead then IOError
    else if Redirected(root, mounts, env) then
      if msg.action == WaitFileSystem then Success else RedirectRequest
    else if !env.found && msg.action != CreateFile && msg.action != WaitFileSystem then NotFound
    else
      match msg.action
      case CreateFile =>
        if env.found then AlreadyExists
        else if !env.statRead || !env.created then IOError
        else env.registered
      case DeleteFile => env.unregistered
      case StatFile => if env.status && env.statWritten then Success else IOError
      case WaitFileSystem => RetryAgain
      case _ => NotSupported
  }

  /** The result of processRequest. */
  function Decide(root: bool, mounts: seq<Mount>, msg: Message, env: Env): Result {
    match msg.action
    case ReadFile => if env.inodeKnown then env.ioResult else NotFound
    case WriteFile => if env.inodeKnown then env.ioResult else NotFound
    case WaitFile => DecideWait(msg, env)
    case _ => DecidePath(root, mounts, msg, env)
  }

  /** Reads and writes are answered by the file, if there is one. */
  lemma InodeAnswers(root: bool, mounts: seq<Mount>, msg: Message, env: Env)
    requires msg.action == ReadFile || msg.action == WriteFile
    ensures
      var r := Decide(root, mounts, msg, env);
      (!env.inodeKnown ==> r == NotFound) && (env.inodeKnown ==> r == env.ioResult)
  {
  }

  /** What a WaitFile request is answered: a ready file wins over a deadline that has passed, in ticks. */
  lemma WaitFileAnswers(root: bool, mounts: seq<Mount>, msg: Message, env: Env)
    requires msg.action == WaitFile
    ensures
      var r := Decide(root, mounts, msg, env);
      var late := msg.timeout.frequency != 0 && env.now >= msg.timeout.ticks;
      && (r == IOError <==> !env.waitSetRead)
      && (r == Success <==> env.waitSetRead && env.ready)
      && (r == TimedOut <==> env.waitSetRead && !env.ready && late)
      && (r == RetryAgain <==> env.waitSetRead && !env.ready && !late)
  {
  }

  /** What a request for a path is answered when its path was read. */
  lemma PathAnswers(root: bool, mounts: seq<Mount>, msg: Message, env: Env)
    requires msg.action != ReadFile && msg.action != WriteFile && msg.action != WaitFile
    ensures
      var r := Decide(root, mounts, msg, env);
      var away := root && exists j :: 0 <= j < |mounts| && mounts[j].path != "" && mounts[j].path <= env.path;
      && (!env.pathRead ==> r == IOError)
      && (env.pathRead && away ==> r == if msg.action == WaitFileSystem then Success else RedirectRequest)
      && (env.pathRead && !away ==>
            && (msg.action == WaitFileSystem ==> r == RetryAgain)
            && (msg.action == CreateFile && env.found ==> r == AlreadyExists)
            && (msg.action == CreateFile && !env.found && env.statRead && env.created ==> r == env.registered)
            && (msg.action == CreateFile && !env.found && !(env.statRead && env.created) ==> r == IOError)
            && (msg.action in {DeleteFile, StatFile, MountFileSystem, GetFileSystems} && !env.found ==> r == NotFound)
            && (msg.action == DeleteFile && env.found ==> r == env.unregistered)
            && (msg.action == StatFile && env.found ==> (r == Success <==> env.status && env.statWritten) && (r == Success || r == IOError)))
  {
    assert UnderAny(mounts, env.path) <==> exists j :: 0 <= j < |mounts| && mounts[j].path != "" && mounts[j].path <= env.path;
  }

  /** Which requests stay pending, for every kind of request. */
  lemma PutOffExactly(root: bool, mounts: seq<Mount>, msg: Message, env: Env)
    ensures Decide(root, mounts, msg, env) == RetryAgain <==>
      match msg.action
      case ReadFile => env.inodeKnown && env.ioResult == RetryAgain
      case WriteFile => env.inodeKnown && env.ioResult == RetryAgain
      case WaitFile => env.waitSetRead && !env.ready && (msg.timeout.frequency == 0 || env.now < msg.timeout.ticks)
      case WaitFileSystem => env.pathRead && !(root && UnderAny(mounts, env.path))
      case CreateFile =>
        && env.pathRead && !(root && UnderAny(mounts, env.path))
        && !env.found && env.statRead && env.created && env.registered == RetryAgain
      case DeleteFile =>
        env.pathRead && !(root && UnderAny(mounts, env.path)) && env.found && env.unregistered == RetryAgain
      case _ => false
  {
  }

  /** On the root file system, waiting for a file system is put off exactly while its path lies under no mount. */
  lemma WaitsForMount(mounts: seq<Mount>, msg: Message, env: Env)
    requires msg.action == WaitFileSystem
    ensures Decide(true, mounts, msg, env) == RetryAgain <==> env.pathRead && !UnderAny(mounts, env.path)
  {
  }

  /** Each of these requests was put off, the first of them in call `c`, the next one in the call after it, and so on. */
  ghost predicate PutOff(root: bool, mounts: seq<Mount>, ms: seq<Message>, env: nat -> Env, c: nat) {
    forall j :: 0 <= j < |ms| ==> Decide(root, mounts, ms[j], env(c + j)) == RetryAgain
  }

  lemma PutOffNone(root: bool, mounts: seq<Mount>, env: nat -> Env, c: nat)
    ensures PutOff(root, mounts, [], env, c)
  {
  }

  lemma PutOffNext(root: bool, mounts: seq<Mount>, ms: seq<Message>, env: nat -> Env, c: nat, k: nat)
    requires k < |ms| && PutOff(root, mounts, ms[..k], env, c) && Decide(root, mounts, ms[k], env(c + k)) == RetryAgain
    ensures PutOff(root, mounts, ms[..k + 1], env, c)
  {
    hide Decide;
    assert ms[..k + 1] == ms[..k] + [ms[k]];
  }

  /** The sleep deadline after a WaitFile request has been put off. */
  function Rearm(expiry: Timer, timeout: Timer): Timer {
    ProcessModel.Timer(timeout.frequency,
          if expiry.frequency == 0 || expiry.ticks > timeout.ticks then timeout.ticks else expiry.ticks)
  }

  function NextExpiry(expiry: Timer, msg: Message, r: Result): Timer {
    if msg.action == WaitFile && r == RetryAgain && msg.timeout.frequency != 0
    then Rearm(expiry, msg.timeout) else expiry
  }

  /** The deadline is set and not later than that of the request, if it has one. */
  predicate Armed(expiry: Timer, msg: Message) {
    msg.action == WaitFile && msg.timeout.frequency != 0 ==>
      expiry.frequency != 0 && expiry.ticks <= msg.timeout.ticks
  }

  /**
   Re-arming for one request never puts off another, and the deadline is never earlier than
   needed: it is the request's own or the one set before.
   */
  lemma RearmKeepsAll(expiry: Timer, msg: Message, r: Result)
    ensures forall m :: Armed(expiry, m) ==> Armed(NextExpiry(expiry, msg, r), m)
    ensures r == RetryAgain ==> Armed(NextExpiry(expiry, msg, r), msg)
    ensures
      var next := NextExpiry(expiry, msg, r);
      || next == expiry
      || (r == RetryAgain && msg.action == WaitFile && msg.timeout.frequency != 0 && next.frequency == msg.timeout.frequency
          && (next.ticks == msg.timeout.ticks || (expiry.frequency != 0 && next.ticks == expiry.ticks)))
  {
  }

  // ------------------------------------------------------------------- ledger

  function PendingIds(ms: seq<Message>): multiset<nat> {
    if ms == [] then multiset{} else multiset{ms[0].id} + PendingIds(ms[1..])
  }

  function AnsweredIds(rs: seq<Response>): multiset<nat> {
    if rs == [] then multiset{} else AnsweredIds(rs[..|rs| - 1]) + multiset{rs[|rs| - 1].id}
  }

  lemma {:induction false} PendingAppend(a: seq<Message>, b: seq<Message>)
    ensures PendingIds(a + b) == PendingIds(a) + PendingIds(b)
  {
    if a == [] {
      assert a + b == b;
    } else {
      assert (a + b)[1..] == a[1..] + b;
      PendingAppend(a[1..], b);
    }
  }

  lemma PendingNone()
    ensures PendingIds([]) == multiset{}
  {
  }

  lemma PendingPush(ms: seq<Message>, m: Message)
    ensures PendingIds(ms + [m]) == PendingIds(ms) + multiset{m.id}
  {
    PendingAppend(ms, [m]);
    assert PendingIds([m]) == multiset{m.id};
  }

  lemma PendingRemove(ms: seq<Message>, k: nat)
    requires k < |ms|
    ensures PendingIds(ms) == PendingIds(ms[..k] + ms[k + 1..]) + multiset{ms[k].id}
  {
    hide PendingIds;
    assert ms == ms[..k] + ([ms[k]] + ms[k + 1..]);
    PendingAppend(ms[..k], [ms[k]] + ms[k + 1..]);
    PendingAppend([ms[k]], ms[k + 1..]);
    PendingAppend(ms[..k], ms[k + 1..]);
    PendingOne(ms[k]);
  }

  lemma PendingOne(m: Message)
    ensures PendingIds([m]) == multiset{m.id}
  {
  }

  lemma AnsweredPush(rs: seq<Response>, r: Response)
    ensures AnsweredIds(rs + [r]) == AnsweredIds(rs) + multiset{r.id}
  {
    assert (rs + [r])[..|rs|] == rs;
  }

  /** What arrives at the server: a request for a path, or a request to mount. */
  datatype Arrival = Asks(msg: Message) | Mounts(from: nat, copied: bool, path: string)

  function Asked(arrivals: seq<Arrival>): seq<Message> {
    if arrivals == [] then []
    else
      var last := arrivals[|arrivals| - 1];
      var front := Asked(arrivals[..|arrivals| - 1]);
      if last.Asks? then front + [last.msg] else front
  }

  lemma AskedNext(arrivals: seq<Arrival>, i: nat)
    requires i < |arrivals|
    ensures Asked(arrivals[..i + 1]) ==
      if arrivals[i].Asks? then Asked(arrivals[..i]) + [arrivals[i].msg] else Asked(arrivals[..i])
  {
    assert arrivals[..i + 1][..i] == arrivals[..i];
  }

  // ------------------------------------------------------------------- server

  class FileSystemServer {
    const root: bool
    var mounts: seq<Mount>
    var pending: seq<Message>
    var responses: seq<Response>
    var expiry: Timer
    /** The requests handed to pathHandler so far. */
    ghost var handed: multiset<nat>
    /** Requests processed so far; it numbers the answers of the environment. */
    var calls: nat

    constructor (root: bool, mounts: seq<Mount>)
      ensures this.root == root && this.mounts == mounts && Ledger()
      ensures pending == [] && responses == [] && handed == multiset{}
    {
      this.root, this.mounts := root, mounts;
      pending, responses, expiry := [], [], ProcessModel.Timer(0, 0);
      handed := multiset{};
      calls := 0;
    }

    /** Every request handed in is answered once or pending once, never both and never neither. */
    ghost predicate Ledger()
      reads this
    {
      AnsweredIds(responses) + PendingIds(pending) == handed
    }

    method SendResponse(msg: Message, r: Result)
      modifies this`responses
      ensures responses == old(responses) + [Response(msg.id, r)]
    {
      responses := responses + [Response(msg.id, r)];
    }

    method InodeHandler(msg: Message, env: Env) returns (r: Result)
      requires msg.action == ReadFile || msg.action == WriteFile
      modifies this`responses
      ensures r == Decide(root, mounts, msg, env)
      ensures responses == if r == RetryAgain then old(responses) else old(responses) + [Response(msg.id, r)]
    {
      if !env.inodeKnown {
        SendResponse(msg, NotFound);
        return NotFound;
      }
      r := env.ioResult;
      if r != RetryAgain {
        SendResponse(msg, r);
      }
    }

    method WaitFileHandler(msg: Message, env: Env) returns (r: Result)
      requires msg.action == WaitFile
      modifies this`responses, this`expiry
      ensures r == Decide(root, mounts, msg, env)
      ensures expiry == NextExpiry(old(expiry), msg, r)
      ensures responses == if r == RetryAgain then old(responses) else old(responses) + [Response(msg.id, r)]
    {
      if !env.waitSetRead {
        SendResponse(msg, IOError);
        return IOError;
      }
      r := if env.ready then Success else RetryAgain;
      if msg.timeout.frequency != 0 && r == RetryAgain {
        if ProcessModel.IsExpired(msg.timeout, env.now) {
          r := TimedOut;
        } else {
          if expiry.frequency == 0 || expiry.ticks > msg.timeout.ticks {
            expiry := expiry.(ticks := msg.timeout.ticks);
          }
          expiry := expiry.(frequency := msg.timeout.frequency);
        }
      }
      if r != RetryAgain {
        SendResponse(msg, r);
      }
    }

    /** Answers the request when its path lies under a mount. */
    method RedirectRequest(msg: Message, env: Env) returns (done: bool, r: Result)
      modifies this`responses
      ensures done == UnderAny(mounts, env.path)
      ensures done ==> r == (if msg.action == WaitFileSystem then Success else Result.RedirectRequest)
      ensures responses == if done then old(responses) + [Response(msg.id, r)] else old(responses)
    {
      r := Success;
      var mnt := FindMount(mounts, env.path);
      if mnt.None? {
        return false, r;
      }
      r := if msg.action == WaitFileSystem then Success else Result.RedirectRequest;
      SendResponse(msg, r);
      done := true;
    }

    method PathRequest(msg: Message, env: Env) returns (r: Result)
      requires msg.action != ReadFile && msg.action != WriteFile && msg.action != WaitFile
      modifies this`responses
      ensures r == Decide(root, mounts, msg, env)
      ensures responses == if r == RetryAgain then old(responses) else old(responses) + [Response(msg.id, r)]
    {
      if !env.pathRead {
        SendResponse(msg, IOError);
        return IOError;
      }
      if root {
        var done, answer := RedirectRequest(msg, env);
        if done {
          return answer;
        }
      }
      if !env.found && msg.action != CreateFile && msg.action != WaitFileSystem {
        SendResponse(msg, NotFound);
        return NotFound;
      }
      match msg.action {
        case CreateFile =>
          if env.found {
            r := AlreadyExists;
          } else if !env.statRead {
            r := IOError;
          } else if !env.created {
            r := IOError;
          } else {
            r := env.registered;
          }
        case DeleteFile => r := env.unregistered;
        case StatFile => r := if env.status && env.statWritten then Success else IOError;
        case WaitFileSystem => r := RetryAgain;
        case _ => r := NotSupported;
      }
      if r != RetryAgain {
        SendResponse(msg, r);
      }
    }

    /** Exactly one response is sent, unless the request has to be retried; then none is. */
    method ProcessRequest(msg: Message, env: Env) returns (r: Result)
      modifies this`responses, this`expiry, this`calls
      ensures r == Decide(root, mounts, msg, env)
      ensures expiry == NextExpiry(old(expiry), msg, r)
      ensures responses == if r == RetryAgain then old(responses) else old(responses) + [Response(msg.id, r)]
      ensures calls == old(calls) + 1
    {
      calls := calls + 1;
      if msg.action == ReadFile || msg.action == WriteFile {
        r := InodeHandler(msg, env);
      } else if msg.action == WaitFile {
        r := WaitFileHandler(msg, env);
      } else {
        r := PathRequest(msg, env);
      }
    }

    /** A request arrives: it is answered or joins the pending list. */
    method PathHandler(msg: Message, env: Env)
      requires Ledger()
      modifies this
      ensures Ledger() && handed == old(handed) + multiset{msg.id} && mounts == old(mounts)
      ensures
        var r := Decide(root, mounts, msg, env);
        if r == RetryAgain then pending == old(pending) + [msg] && responses == old(responses)
        else pending == old(pending) && responses == old(responses) + [Response(msg.id, r)]
      ensures expiry == NextExpiry(old(expiry), msg, Decide(root, mounts, msg, env))
      ensures (forall m :: m in old(pending) ==> Armed(old(expiry), m)) ==> forall m :: m in pending ==> Armed(expiry, m)
    {
      hide PendingIds, AnsweredIds, Decide, NextExpiry, Armed;
      handed := handed + multiset{msg.id};
      PendingPush(pending, msg);
      RearmKeepsAll(expiry, msg, Decide(root, mounts, msg, env));
      AnsweredPush(responses, Response(msg.id, Decide(root, mounts, msg, env)));
      var r := ProcessRequest(msg, env);
      if r == RetryAgain {
        pending := pending + [msg];
      }
    }

    /** mountHandler; `copied` is whether the path could be read from the caller. */
    method MountHandler(from: nat, copied: bool, path: string) returns (r: Result)
      modifies this`mounts
      ensures Ledger() <==> old(Ledger())
      ensures r == Success || r == IOError
      ensures !copied ==> r == IOError && mounts == old(mounts)
      ensures copied ==> Mounted(old(mounts), mounts, path, from, r == Success)
    {
      if !copied {
        return IOError;
      }
      for i := 0 to |mounts|
        invariant mounts == old(mounts) && forall j :: 0 <= j < i ==> mounts[j].path != path
      {
        if mounts[i].path == path {
          assert FirstWith(mounts, path, i);
          mounts := mounts[i := Mount(path, from)];
          return Success;
        }
      }
      for i := 0 to |mounts|
        invariant mounts == old(mounts) && forall j :: 0 <= j < i ==> mounts[j].path != ""
      {
        if mounts[i].path == "" {
          assert FirstWith(mounts, "", i);
          mounts := mounts[i := Mount(path, from)];
          return Success;
        }
      }
      r := IOError;
    }

    /**
     One pass over the pending list. Removing a request moves the iterator on to
     the next one, which the loop increment then steps over. Returns whether
     something was answered; if not, the whole list was visited and the sleep
     deadline covers every pending request.
     */
    method RetryRequests(env: nat -> Env) returns (restart: bool)
      requires Ledger()
      modifies this`pending, this`responses, this`expiry, this`calls
      ensures Ledger() && old(responses) <= responses
      ensures restart ==> |pending| < |old(pending)|
      ensures !restart ==> pending == old(pending) && responses == old(responses)
      ensures !restart ==> forall m :: m in pending ==> Armed(expiry, m)
      ensures !restart ==> calls == old(calls) + |pending| && PutOff(root, mounts, pending, env, old(calls))
    {
      hide PendingIds, AnsweredIds, Decide, NextExpiry, Armed, PutOff, Ledger;
      restart := false;
      var k := 0;
      PutOffNone(root, mounts, env, calls);
      assert pending[..k] == [];
      while k < |pending|
        invariant 0 <= k && Ledger() && old(responses) <= responses
        invariant |pending| <= |old(pending)| && (restart ==> |pending| < |old(pending)|)
        invariant !restart ==> k <= |pending| && pending == old(pending) && responses == old(responses)
        invariant !restart ==> forall j :: 0 <= j < k ==> Armed(expiry, pending[j])
        invariant !restart ==> calls == old(calls) + k && PutOff(root, mounts, pending[..k], env, old(calls))
        decreases |old(pending)| - k, |pending|
      {
        var answered := RetryOne(k, env(calls));
        if !restart && !answered {
          PutOffNext(root, mounts, pending, env, old(calls), k);
        }
        restart := restart || answered;
        k := k + 1;
      }
      if !restart {
        assert k == |pending|;
        assert pending[..k] == pending;
      }
    }

    /** One request of the pass: it is answered and taken off the list, or stays where it is. */
    method RetryOne(k: nat, env: Env) returns (answered: bool)
      requires Ledger() && k < |pending|
      modifies this`pending, this`responses, this`expiry, this`calls
      ensures Ledger() && old(responses) <= responses && calls == old(calls) + 1
      ensures answered == (Decide(root, mounts, old(pending)[k], env) != RetryAgain)
      ensures answered ==>
        && pending == old(pending)[..k] + old(pending)[k + 1..]
        && responses == old(responses) + [Response(old(pending)[k].id, Decide(root, mounts, old(pending)[k], env))]
      ensures !answered ==> pending == old(pending) && responses == old(responses) && Armed(expiry, pending[k])
      ensures expiry == NextExpiry(old(expiry), old(pending)[k], Decide(root, mounts, old(pending)[k], env))
      ensures forall m :: Armed(old(expiry), m) ==> Armed(expiry, m)
    {
      hide PendingIds, AnsweredIds, Decide, NextExpiry, Armed;
      var msg := pending[k];
      PendingRemove(pending, k);
      RearmKeepsAll(expiry, msg, Decide(root, mounts, msg, env));
      AnsweredPush(responses, Response(msg.id, Decide(root, mounts, msg, env)));
      var r := ProcessRequest(msg, env);
      answered := r != RetryAgain;
      if answered {
        pending := pending[..k] + pending[k + 1..];
      }
    }

    /** Retries until a pass answers nothing. Each repeated pass has fewer requests left, so this ends. */
    method RetryAllRequests(env: nat -> Env)
      requires Ledger()
      modifies this`pending, this`responses, this`expiry, this`calls
      ensures Ledger() && old(responses) <= responses
      ensures forall m :: m in pending ==> Armed(expiry, m)
      ensures calls >= |pending| && PutOff(root, mounts, pending, env, calls - |pending|)
    {
      hide Ledger, Armed, PutOff;
      var again := true;
      while again
        invariant Ledger() && old(responses) <= responses
        invariant !again ==> forall m :: m in pending ==> Armed(expiry, m)
        invariant !again ==> calls >= |pending| && PutOff(root, mounts, pending, env, calls - |pending|)
        decreases |pending|, again
      {
        again := RetryRequests(env);
      }
    }

    /**
     One round of the server: what has arrived, then the retries. When it goes to
     sleep every request is answered exactly once or pending exactly once, the deadline
     is no later than that of any pending WaitFile, and every pending request was put off
     with the mounts as they are now.
     */
    method ProcessAll(arrivals: seq<Arrival>, env: nat -> Env)
      requires Ledger()
      modifies this
      ensures Ledger() && handed == old(handed) + PendingIds(Asked(arrivals))
      ensures forall m :: m in pending ==> Armed(expiry, m)
      ensures calls >= |pending| && PutOff(root, mounts, pending, env, calls - |pending|)
    {
      hide PendingIds, AnsweredIds, Decide, Armed, Ledger, PutOff, Mounted;
      PendingNone();
      assert arrivals[..0] == [];
      for i := 0 to |arrivals|
        invariant Ledger() && handed == old(handed) + PendingIds(Asked(arrivals[..i]))
      {
        AskedNext(arrivals, i);
        match arrivals[i]
        case Asks(msg) =>
          PendingPush(Asked(arrivals[..i]), msg);
          PathHandler(msg, env(calls));
        case Mounts(from, copied, path) =>
          var r := MountHandler(from, copied, path);
      }
      assert arrivals[..|arrivals|] == arrivals;
      RetryAllRequests(env);
    }

    /** After a wakeup: a deadline that has passed is cleared and the retries set it anew. */
    method AfterSleep(now: nat, env: nat -> Env)
      requires Ledger() && forall m :: m in pending ==> Armed(expiry, m)
      modifies this`pending, this`responses, this`expiry, this`calls
      ensures Ledger() && forall m :: m in pending ==> Armed(expiry, m)
      ensures
        if old(expiry).frequency != 0 && old(expiry).ticks < now then
          calls >= |pending| && PutOff(root, mounts, pending, env, calls - |pending|)
        else
          pending == old(pending) && responses == old(responses) && expiry == old(expiry)
    {
      if expiry.frequency != 0 && expiry.ticks < now {
        expiry := expiry.(frequency := 0);
        RetryAllRequests(env);
      }
    }
  }
}
