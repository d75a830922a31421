/**
 * Where the inference code takes its label list and its model from: the
 * newest model document in the database when remote sourcing is switched on
 * and the document's fields are non-empty, otherwise the local files; the
 * remote fetch, the labels and the session are each computed at most once
 * per process.
 *
 * The database, the local files and the runtime's availability are inputs;
 * a failed connection is the `Unreachable` remote.
 */
module ModelSource {
  import opened Wrappers
  import opened PyStr
  import DotEnv

  type Bytes = seq<bv8>

  /** The variable that switches remote sourcing on. */
  const RemoteFlag: string := "MODEL_FROM_MONGO"

  /** Remote sourcing is on when the flag, trimmed, is `1`; an unset flag counts as `1`. */
  function RemoteEnabled(env: map<string, string>): (b: bool)
    ensures RemoteFlag !in env ==> b
    ensures RemoteFlag in env ==> (b <==> Strip(env[RemoteFlag]) == "1")
  {
    Strip(if RemoteFlag in env then env[RemoteFlag] else "1") == "1"
  }

  /** A `.env` file that sets the flag to `0` switches remote sourcing off, whatever the environment held. */
  lemma EnvFileDisablesRemote(env: map<string, string>)
    ensures var loaded := DotEnv.Load(DotEnv.Render([DotEnv.Binding(RemoteFlag, "0")]), env);
            loaded.1 && !RemoteEnabled(loaded.0)
  {
    var b := DotEnv.Binding(RemoteFlag, "0");
    assert DotEnv.Writable(b);
    DotEnv.LoadOfRendered([b], env);
    assert DotEnv.Assign(env, [b]) == env[RemoteFlag := "0"];
    assert Strip("0") == "0";
  }

  /** A stored model: its timestamp, and its model bytes and label list when present. */
  datatype ModelDoc = ModelDoc(timestamp: int, modelBytes: Option<Bytes>, classes: Option<seq<string>>)

  /** The model collection as a connection finds it. */
  datatype Remote = Unreachable | Reachable(docs: seq<ModelDoc>)

  /** What the remote fetch yields: model bytes and label list, each possibly missing. */
  datatype Fetched = Fetched(modelBytes: Option<Bytes>, classes: Option<seq<string>>)

  /** The position of the first document with the latest timestamp. */
  function Newest(docs: seq<ModelDoc>): (i: nat)
    requires docs != []
    ensures i < |docs|
    ensures forall k :: 0 <= k < |docs| ==> docs[k].timestamp <= docs[i].timestamp
    ensures forall k :: 0 <= k < i ==> docs[k].timestamp < docs[i].timestamp
    decreases |docs|
  {
    if |docs| == 1 then 0
    else
      var j := Newest(docs[..|docs| - 1]);
      if docs[|docs| - 1].timestamp > docs[j].timestamp then |docs| - 1 else j
  }

  /**
   * The remote fetch: nothing when remote sourcing is off, when the database
   * cannot be reached or holds no model; otherwise the fields of a document
   * with the latest timestamp.
   */
  function FetchRemote(enabled: bool, remote: Remote): (f: Fetched)
    ensures !enabled || remote == Unreachable || remote == Reachable([]) ==> f == Fetched(None, None)
    ensures enabled && remote.Reachable? && remote.docs != [] ==>
              exists i :: 0 <= i < |remote.docs|
                && (forall k :: 0 <= k < |remote.docs| ==> remote.docs[k].timestamp <= remote.docs[i].timestamp)
                && f == Fetched(remote.docs[i].modelBytes, remote.docs[i].classes)
  {
    if !enabled then Fetched(None, None)
    else match remote
      case Unreachable => Fetched(None, None)
      case Reachable(docs) =>
        if docs == [] then Fetched(None, None)
        else
          var d := docs[Newest(docs)];
          Fetched(d.modelBytes, d.classes)
  }

  /** Why no label list or no model could be obtained. */
  datatype SourceError = LabelsNotFound | ModelNotFound | RuntimeUnavailable

  /** Where a session's model was read from. */
  datatype Session = FromBytes(bytes: Bytes) | FromFile

  /** The local files and the remote collection at the moment of a call. */
  datatype World = World(remote: Remote, labelsFile: Option<seq<string>>, modelFile: bool)

  /** A present, non-empty value (Python truthiness of a list or a byte string). */
  predicate Truthy<T>(v: Option<seq<T>>) {
    v.Some? && v.value != []
  }

  /**
   * The label list: the remote one when non-empty, else the local file's
   * (taken as it is, even empty), else an error.
   */
  function ResolveClasses(remote: Option<seq<string>>, labelsFile: Option<seq<string>>): (r: Result<seq<string>, SourceError>)
    ensures r.Err? <==> !Truthy(remote) && labelsFile.None?
    ensures r.Err? ==> r.error == LabelsNotFound
    ensures Truthy(remote) ==> r == Ok(remote.value)
    ensures !Truthy(remote) && labelsFile.Some? ==> r == Ok(labelsFile.value)
  {
    if Truthy(remote) then Ok(remote.value)
    else if labelsFile.Some? then Ok(labelsFile.value)
    else Err(LabelsNotFound)
  }

  /**
   * The session: an error when the runtime is missing; else built from the
   * remote bytes when non-empty, else from the local file when it exists,
   * else an error.
   */
  function ResolveSession(runtime: bool, remote: Option<Bytes>, modelFile: bool): (r: Result<Session, SourceError>)
    ensures !runtime ==> r == Err(RuntimeUnavailable)
    ensures runtime && Truthy(remote) ==> r == Ok(FromBytes(remote.value))
    ensures runtime && !Truthy(remote) ==> r == if modelFile then Ok(FromFile) else Err(ModelNotFound)
  {
    if !runtime then Err(RuntimeUnavailable)
    else if Truthy(remote) then Ok(FromBytes(remote.value))
    else if modelFile then Ok(FromFile)
    else Err(ModelNotFound)
  }

  /**
   * The two choices are made separately: a fetched document with labels but
   * no model bytes gives the remote labels and the local model.
   */
  lemma SourcesIndependent(classes: seq<string>, labelsFile: Option<seq<string>>)
    requires classes != []
    ensures var f := Fetched(None, Some(classes));
            && ResolveClasses(f.classes, labelsFile) == Ok(classes)
            && ResolveSession(true, f.modelBytes, true) == Ok(FromFile)
  {
  }

  /**
   * The process-wide memo of the three resolvers: each remembers its first
   * result. The remote fetch is remembered whatever it returned (a failed
   * connection included); the label list and the session only when they
   * were obtained, so a failed resolution is retried on the next call.
   */
  class ModelResolver {
    const enabled: bool
    const runtime: bool
    var fetched: Option<Fetched>
    var classes: Option<seq<string>>
    var session: Option<Session>
    /** How many times the database was queried. */
    ghost var fetches: nat

    /**
     * The database is queried once, at the first fetch, and never again; a
     * remembered label list or session was obtained after that fetch.
     */
    ghost predicate Valid()
      reads this
    {
      && fetches == (if fetched.Some? then 1 else 0)
      && (classes.Some? || session.Some? ==> fetched.Some?)
    }

    constructor (enabled: bool, runtime: bool)
      ensures Valid() && this.enabled == enabled && this.runtime == runtime
      ensures fetched == None && classes == None && session == None
    {
      this.enabled := enabled;
      this.runtime := runtime;
      fetched, classes, session := None, None, None;
      fetches := 0;
    }

    /** The remote fetch, performed against the collection at the first call only. */
    method Fetch(remote: Remote) returns (f: Fetched)
      requires Valid()
      modifies this
      ensures Valid() && fetched == Some(f)
      ensures old(fetched).Some? ==> f == old(fetched).value && fetches == old(fetches)
      ensures old(fetched).None? ==> f == FetchRemote(enabled, remote)
      ensures classes == old(classes) && session == old(session)
    {
      if fetched.Some? {
        f := fetched.value;
      } else {
        f := FetchRemote(enabled, remote);
        fetched := Some(f);
        fetches := fetches + 1;
      }
    }

    /** The label list; the first one obtained is returned on every later call. */
    method Classes(w: World) returns (r: Result<seq<string>, SourceError>)
      requires Valid()
      modifies this
      ensures Valid() && session == old(session)
      ensures old(classes).Some? ==> r == Ok(old(classes).value) && classes == old(classes) && fetched == old(fetched)
      ensures old(classes).None? ==>
                var f := if old(fetched).Some? then old(fetched).value else FetchRemote(enabled, w.remote);
                && r == ResolveClasses(f.classes, w.labelsFile)
                && fetched == Some(f)
                && classes == (if r.Ok? then Some(r.value) else None)
    {
      if classes.Some? {
        r := Ok(classes.value);
      } else {
        var f := Fetch(w.remote);
        r := ResolveClasses(f.classes, w.labelsFile);
        if r.Ok? {
          classes := Some(r.value);
        }
      }
    }

    /**
     * The session; the first one built is returned on every later call. With
     * no runtime the call fails before fetching anything.
     */
    method GetSession(w: World) returns (r: Result<Session, SourceError>)
      requires Valid()
      modifies this
      ensures Valid() && classes == old(classes)
      ensures old(session).Some? ==> r == Ok(old(session).value) && session == old(session) && fetched == old(fetched)
      ensures old(session).None? && !runtime ==> r == Err(RuntimeUnavailable) && fetched == old(fetched) && session == None
      ensures old(session).None? && runtime ==>
                var f := if old(fetched).Some? then old(fetched).value else FetchRemote(enabled, w.remote);
                && r == ResolveSession(runtime, f.modelBytes, w.modelFile)
                && fetched == Some(f)
                && session == (if r.Ok? then Some(r.value) else None)
    {
      if session.Some? {
        r := Ok(session.value);
      } else if !runtime {
        r := Err(RuntimeUnavailable);
      } else {
        var f := Fetch(w.remote);
        r := ResolveSession(runtime, f.modelBytes, w.modelFile);
        if r.Ok? {
          session := Some(r.value);
        }
      }
    }
  }
}
