/** The server builder's effective configuration: resolved once, cached, and persisted without overwriting foreign changes. */
module ServerConfig {
  import opened Bytes
  import Carrier

  type Iat = Carrier.Iat

  datatype Identity = Identity(keys: nat, nodeId: nat)

  /** What a server is built from and its clients are told. */
  datatype Triple = Triple(identity: Identity, iat: Iat, seed: nat)

  /** The JSON form of a triple. */
  datatype StateText = StateText(encode: Triple -> seq<byte>, decode: seq<byte> -> Option<Triple>)

  ghost predicate Lawful(t: StateText) {
    forall x :: t.decode(t.encode(x)) == Some(x)
  }

  type Path = string
  type Contents = seq<byte>

  const STATE_FILENAME: string := "/obfs4_state.json"

  /** What the target path held when the builder last looked at or wrote it. */
  datatype Observation = Observation(path: Path, contents: Option<Contents>)

  datatype Effective = Effective(triple: Triple, persist: bool, observation: Option<Observation>)

  datatype Overrides = Overrides(identity: bool, nodeId: bool, iat: bool, seed: bool)

  predicate Any(o: Overrides) { o.identity || o.nodeId || o.iat || o.seed }
  predicate All(o: Overrides) { o.identity && o.nodeId && o.iat && o.seed }

  /** The stored triple with the overridden parts replaced by the builder's own. */
  function Overlay(o: Overrides, own: Identity, ownIat: Iat, ownSeed: nat, state: Triple): Triple {
    Triple(Identity(if o.identity then own.keys else state.identity.keys,
                    if o.nodeId then own.nodeId else state.identity.nodeId),
           if o.iat then ownIat else state.iat,
           if o.seed then ownSeed else state.seed)
  }

  /** The file system, shared with other writers. */
  class Disk {
    var files: map<Path, Contents>

    function Read(p: Path): Option<Contents>
      reads this
    {
      if p in files then Some(files[p]) else None
    }

    /** Anything other programs may do between two calls. */
    method Interfere(others: map<Path, Contents>)
      modifies this
      ensures files == others
    {
      files := others;
    }
  }

  /** How `try_build` ends. */
  datatype BuildResult =
    | Built(triple: Triple)
    | BadConfig
    | Unresolved
    | StateFileChanged
    | WriteFailed
    | NotDurable

  /** What the file system answers to a replacement. */
  datatype Write = Written | NotPublished | PublishedButNotDurable

  class ServerBuilder {
    const text: StateText
    var iatMode: Iat
    var statefilePath: Option<Path>
    var identity: Identity
    var drbgSeed: Option<nat>
    var configError: bool
    var overrides: Overrides
    var statefileIsFile: bool
    var persistStatefile: bool
    var cache: Option<Effective>

    /** The triple reported since the last invalidation, if any. */
    ghost var reported: Option<Triple>

    /** Whatever was reported is what is cached, and pending persistence has an observation to check. */
    ghost predicate Valid()
      reads this
    {
      && (reported.Some? ==> cache.Some? && cache.value.triple == reported.value)
      && (cache.Some? && cache.value.persist ==> cache.value.observation.Some?)
      && (overrides.seed ==> drbgSeed.Some?)
    }

    constructor (text: StateText, ownIdentity: Identity)
      ensures Valid() && this.text == text && reported == None
      ensures cache == None && statefilePath == None && overrides == Overrides(false, false, false, false) && !configError
      ensures persistStatefile && !statefileIsFile
      ensures iatMode == Carrier.Off && identity == ownIdentity && drbgSeed == None
    {
      this.text := text;
      iatMode, statefilePath, identity, drbgSeed := Carrier.Off, None, ownIdentity, None;
      configError, overrides := false, Overrides(false, false, false, false);
      statefileIsFile, persistStatefile, cache := false, true, None;
      reported := None;
    }

    // ------------------------------------------------------------- setters

    method Invalidate()
      requires overrides.seed ==> drbgSeed.Some?
      modifies this`cache, this`reported
      ensures Valid() && cache == None && reported == None
    {
      cache, reported := None, None;
    }

    /** The builder is unchanged unless the pair corresponds. */
    method TryNodeKeys(keys: nat, correspond: bool) returns (ok: bool)
      requires Valid()
      modifies this`identity, this`overrides, this`configError, this`cache, this`reported
      ensures Valid() && ok == correspond
      ensures !ok ==> unchanged(this)
      ensures ok ==> identity == old(identity).(keys := keys) && overrides == old(overrides).(identity := true)
      ensures ok ==> !configError && cache == None && reported == None
    {
      if !correspond {
        return false;
      }
      identity := identity.(keys := keys);
      configError := false;
      Invalidate();
      overrides := overrides.(identity := true);
      return true;
    }

    /** A pair that does not correspond leaves an error behind and nothing else. */
    method NodeKeys(keys: nat, correspond: bool)
      requires Valid()
      modifies this`identity, this`overrides, this`configError, this`cache, this`reported
      ensures Valid() && cache == None && reported == None && configError == !correspond
      ensures identity == if correspond then old(identity).(keys := keys) else old(identity)
      ensures overrides == if correspond then old(overrides).(identity := true) else old(overrides)
    {
      var ok := TryNodeKeys(keys, correspond);
      if !ok {
        configError := true;
        Invalidate();
      }
    }

    method StatefilePath(path: Path)
      requires Valid()
      modifies this`statefilePath, this`statefileIsFile, this`persistStatefile, this`cache, this`reported
      ensures Valid() && cache == None && reported == None
      ensures statefilePath == Some(path) && !statefileIsFile && persistStatefile
    {
      statefilePath := Some(path);
      statefileIsFile, persistStatefile := false, true;
      Invalidate();
    }

    /** Import a stored triple; it becomes the effective configuration and is not written back. */
    method TryStatefilePath(disk: Disk, path: Path, isFile: bool) returns (ok: bool)
      requires Valid()
      modifies this`identity, this`iatMode, this`drbgSeed, this`statefilePath, this`configError, this`statefileIsFile,
               this`persistStatefile, this`cache, this`reported
      ensures Valid() && reported == None
      ensures ok <==> Import(disk.files, path, isFile).Some?
      ensures ok ==>
                var t := Import(disk.files, path, isFile).value;
                && cache == Some(Effective(t, false, None))
                && identity == t.identity && iatMode == t.iat && drbgSeed == Some(t.seed)
                && statefilePath == Some(path) && statefileIsFile == isFile && persistStatefile == !isFile && !configError
      ensures !ok ==> cache == None && unchanged(this`identity, this`iatMode, this`drbgSeed, this`statefilePath,
                                                 this`configError, this`statefileIsFile, this`persistStatefile)
    {
      Invalidate();
      var state := Import(disk.files, path, isFile);
      if state.None? {
        return false;
      }
      var t := state.value;
      identity, iatMode, drbgSeed := t.identity, t.iat, Some(t.seed);
      statefilePath, configError := Some(path), false;
      statefileIsFile, persistStatefile := isFile, !isFile;
      cache := Some(Effective(t, false, None));
      return true;
    }

    /** The triple that a state directory or an explicit state file holds, if it is there and decodes. */
    function Import(files: map<Path, Contents>, path: Path, isFile: bool): Option<Triple> {
      var file := if isFile then path else path + STATE_FILENAME;
      if file in files then text.decode(files[file]) else None
    }

    method NodeId(id: nat)
      requires Valid()
      modifies this`identity, this`overrides, this`cache, this`reported
      ensures Valid() && cache == None && reported == None
      ensures identity == old(identity).(nodeId := id) && overrides == old(overrides).(nodeId := true)
    {
      identity := identity.(nodeId := id);
      overrides := overrides.(nodeId := true);
      Invalidate();
    }

    method IatMode(iat: Iat)
      requires Valid()
      modifies this`iatMode, this`overrides, this`cache, this`reported
      ensures Valid() && cache == None && reported == None
      ensures iatMode == iat && overrides == old(overrides).(iat := true)
    {
      iatMode := iat;
      overrides := overrides.(iat := true);
      Invalidate();
    }

    // ----------------------------------------------------------- resolution

    function Target(): Option<Path>
      reads this
    {
      match statefilePath
      case None => None
      case Some(p) => Some(if statefileIsFile then p else p + STATE_FILENAME)
    }

    /** What the state file holds, when one is configured and present. */
    function Stored(files: map<Path, Contents>): Option<Contents>
      reads this
    {
      var target := Target();
      if target.Some? && target.value in files then Some(files[target.value]) else None
    }

    /**
     The triple the builder and its state file stand for: overridden parts win over stored
     ones, and `draw` is what the random generator gives for a seed that nothing supplies.
     There is none when a state file that is needed does not decode or no seed can be drawn.
     */
    function Sources(files: map<Path, Contents>, draw: Option<nat>): Option<Triple>
      reads this
    {
      var stored := Stored(files);
      if stored.Some? && !All(overrides) then
        match text.decode(stored.value)
        case None => None
        case Some(state) => Some(Overlay(overrides, identity, iatMode, if drbgSeed.Some? then drbgSeed.value else 0, state))
      else if drbgSeed.Some? then Some(Triple(identity, iatMode, drbgSeed.value))
      else if draw.Some? then Some(Triple(identity, iatMode, draw.value))
      else None
    }

    /** The triple of a call: the cached one, or what the sources give now. */
    function Current(files: map<Path, Contents>, draw: Option<nat>): Option<Triple>
      reads this
    {
      if cache.Some? then Some(cache.value.triple) else Sources(files, draw)
    }

    /** Persistence is due for a target that is missing or overridden. */
    predicate PersistenceDue(files: map<Path, Contents>)
      reads this
    {
      persistStatefile && Target().Some? && (Stored(files).None? || Any(overrides))
    }

    /** What a build must still persist, and the contents it expects there: cached, or found by resolving now. */
    function Due(files: map<Path, Contents>): Option<Observation>
      reads this
    {
      if cache.Some? then if cache.value.persist then cache.value.observation else None
      else if PersistenceDue(files) then Some(Observation(Target().value, Stored(files)))
      else None
    }

    /** The builder's parts laid over a stored triple. */
    method OverlayState(state: Triple) returns (ident: Identity, iat: Iat, seed: Option<nat>)
      requires overrides.seed ==> drbgSeed.Some?
      ensures seed.Some?
      ensures Triple(ident, iat, seed.value)
           == Overlay(overrides, identity, iatMode, if drbgSeed.Some? then drbgSeed.value else 0, state)
    {
      ident, iat, seed := identity, iatMode, drbgSeed;
      var stored := state.identity;
      if overrides.identity {
        if !overrides.nodeId {
          ident := ident.(nodeId := stored.nodeId);
        }
      } else {
        if overrides.nodeId {
          stored := stored.(nodeId := ident.nodeId);
        }
        ident := stored;
      }
      if !overrides.iat {
        iat := state.iat;
      }
      if !overrides.seed {
        seed := Some(state.seed);
      }
    }

    /** Read the builder and its state file into a configuration. */
    method Resolve(disk: Disk, draw: Option<nat>) returns (r: Option<Effective>)
      requires Valid()
      ensures r.Some? <==> Sources(disk.files, draw).Some?
      ensures r.Some? ==> r.value.triple == Sources(disk.files, draw).value
      ensures r.Some? ==> r.value.persist == PersistenceDue(disk.files)
      ensures r.Some? ==> r.value.observation == if r.value.persist then Some(Observation(Target().value, Stored(disk.files))) else None
    {
      var ident, iat, seed := identity, iatMode, drbgSeed;
      var target := Target();
      var contents := if target.Some? then disk.Read(target.value) else None;
      assert contents == Stored(disk.files);
      if contents.Some? && !All(overrides) {
        var state := text.decode(contents.value);
        if state.None? {
          return None;
        }
        ident, iat, seed := OverlayState(state.value);
      }
      if seed.None? {
        seed := draw;
        if seed.None? {
          return None;
        }
      }
      var persist := persistStatefile && target.Some? && (contents.None? || Any(overrides));
      var observation := if persist then Some(Observation(target.value, contents)) else None;
      return Some(Effective(Triple(ident, iat, seed.value), persist, observation));
    }

    /** The cached configuration, resolving it on first use; what is due to be persisted stays due. */
    method EffectiveConfiguration(disk: Disk, draw: Option<nat>) returns (r: Option<Effective>)
      requires Valid()
      modifies this`cache
      ensures Valid() && cache == r
      ensures old(cache).Some? ==> r == old(cache)
      ensures r.Some? <==> old(Current(disk.files, draw)).Some?
      ensures r.Some? ==> r.value.triple == old(Current(disk.files, draw)).value
      ensures r.Some? ==> Due(disk.files) == old(Due(disk.files))
    {
      if cache.Some? {
        return cache;
      }
      r := Resolve(disk, draw);
      if r.Some? {
        cache := r;
      }
    }

    /** The public part of the configuration; every report between two invalidations is the same. */
    method TryClientParams(disk: Disk, draw: Option<nat>) returns (r: Option<(Identity, Iat)>)
      requires Valid()
      modifies this`cache, this`reported
      ensures Valid()
      ensures old(reported).Some? ==> reported == old(reported)
      ensures old(cache).Some? ==> cache == old(cache)
      ensures r.Some? <==> !configError && old(Current(disk.files, draw)).Some?
      ensures r.Some? ==> reported == old(Current(disk.files, draw)) && r.value == (reported.value.identity, reported.value.iat)
      ensures r.None? ==> cache == old(cache) && reported == old(reported)
      ensures r.Some? ==> Due(disk.files) == old(Due(disk.files))
    {
      if configError {
        return None;
      }
      var effective := EffectiveConfiguration(disk, draw);
      if effective.None? {
        return None;
      }
      reported := Some(effective.value.triple);
      return Some((effective.value.triple.identity, effective.value.triple.iat));
    }

    /** Replace the target atomically; the directory sync after the replacement may still fail. */
    method WriteStatefile(disk: Disk, path: Path, contents: Contents, answer: Write) returns (w: Write)
      modifies disk
      ensures w == answer
      ensures disk.files == if w.NotPublished? then old(disk.files) else old(disk.files)[path := contents]
    {
      if answer.NotPublished? {
        return NotPublished;
      }
      disk.files := disk.files[path := contents];
      if answer.PublishedButNotDurable? {
        return PublishedButNotDurable;
      }
      return Written;
    }

    /**
     Build a server, persisting its state when that is due. The triple is that of every
     other report since the last invalidation, also after a publication whose durability
     could not be confirmed. Nothing but the target is ever written, and that only while it
     holds what this builder read or published there last: a foreign change is reported.
     */
    method TryBuild(disk: Disk, draw: Option<nat>, answer: Write) returns (r: BuildResult)
      requires Valid()
      modifies this`cache, this`reported, disk
      ensures Valid()
      ensures old(reported).Some? ==> reported == old(reported)
      ensures r.BadConfig? <==> configError
      ensures r.Unresolved? <==> !configError && old(Current(disk.files, draw)).None?
      ensures r.BadConfig? || r.Unresolved? ==> cache == old(cache) && disk.files == old(disk.files)
      ensures !r.BadConfig? && !r.Unresolved? ==> cache.Some? && cache.value.triple == old(Current(disk.files, draw)).value
      ensures !r.BadConfig? && !r.Unresolved? ==> Ends(old(disk.files), old(Due(disk.files)), answer, r)
      ensures r.Built? ==> r.triple == cache.value.triple && reported == Some(r.triple) && !cache.value.persist
      ensures if (r.Built? && old(Due(disk.files)).Some?) || r.NotDurable? then Published(old(disk.files), disk.files, old(Due(disk.files)))
              else disk.files == old(disk.files)
      ensures r.StateFileChanged? || r.WriteFailed? ==> Due(disk.files) == old(Due(disk.files))
      ensures r.NotDurable? ==>
                Due(disk.files) == Some(Observation(old(Due(disk.files)).value.path, Some(text.encode(cache.value.triple))))
    {
      if configError {
        return BadConfig;
      }
      var found := EffectiveConfiguration(disk, draw);
      if found.None? {
        return Unresolved;
      }
      if found.value.persist {
        r := Persist(disk, answer);
        if !r.Built? {
          return;
        }
      }
      reported := Some(found.value.triple);
      return Built(found.value.triple);
    }

    /** Compare the target with the observation and replace it; a replacement that may be lost becomes the new observation. */
    method Persist(disk: Disk, answer: Write) returns (r: BuildResult)
      requires Valid() && cache.Some? && cache.value.persist
      modifies this`cache, disk
      ensures Valid() && cache.Some? && cache.value.triple == old(cache).value.triple
      ensures Ends(old(disk.files), old(cache).value.observation, answer, r)
      ensures r.Built? || r.NotDurable? ==> Published(old(disk.files), disk.files, old(cache).value.observation)
      ensures r.StateFileChanged? || r.WriteFailed? ==> disk.files == old(disk.files) && cache == old(cache)
      ensures r.Built? ==> r.triple == cache.value.triple && !cache.value.persist
      ensures r.NotDurable? ==>
                cache == Some(Effective(cache.value.triple, true,
                                        Some(Observation(old(cache).value.observation.value.path, Some(text.encode(cache.value.triple))))))
    {
      var effective := cache.value;
      var observation := effective.observation.value;
      if disk.Read(observation.path) != observation.contents {
        return StateFileChanged;
      }
      var published := text.encode(effective.triple);
      var w := WriteStatefile(disk, observation.path, published, answer);
      match w {
        case NotPublished =>
          return WriteFailed;
        case PublishedButNotDurable =>
          cache := Some(effective.(observation := Some(Observation(observation.path, Some(published)))));
          return NotDurable;
        case Written =>
          cache := Some(effective.(persist := false, observation := None));
          return Built(effective.triple);
      }
    }

    /** The files are as before except for the target, which held the contents expected and now holds the cached triple. */
    ghost predicate Published(before: map<Path, Contents>, after: map<Path, Contents>, due: Option<Observation>)
      reads this
    {
      && due.Some? && cache.Some? && !Foreign(before, due.value)
      && after == before[due.value.path := text.encode(cache.value.triple)]
    }
  }

  /** The path does not hold what was observed there. */
  predicate Foreign(files: map<Path, Contents>, o: Observation) {
    o.contents != if o.path in files then Some(files[o.path]) else None
  }

  /** How a build with a configuration ends: a foreign change is reported, otherwise the file system decides. */
  predicate Ends(files: map<Path, Contents>, due: Option<Observation>, answer: Write, r: BuildResult) {
    if due.None? then r.Built?
    else if Foreign(files, due.value) then r.StateFileChanged?
    else
      match answer
      case Written => r.Built?
      case NotPublished => r.WriteFailed?
      case PublishedButNotDurable => r.NotDurable?
  }

  /**
   After a build that had to persist, first try or retry, nothing is lost: a fresh builder
   pointed at the same directory, with no overrides, resolves to the same triple.
   */
  method RebuildFromDisk(built: ServerBuilder, disk: Disk, path: Path, ownIdentity: Identity, draw: Option<nat>, answer: Write)
    returns (first: Option<Triple>, second: Option<Triple>)
    requires built.Valid() && Lawful(built.text)
    requires built.Due(disk.files).Some? && built.Due(disk.files).value.path == path + STATE_FILENAME
    modifies built, disk
    ensures first == if !built.configError && !Foreign(old(disk.files), old(built.Due(disk.files)).value) && answer.Written?
                     then old(built.Current(disk.files, draw)) else None
    ensures first.Some? ==> second == first
  {
    var r := built.TryBuild(disk, draw, answer);
    if !r.Built? {
      return None, None;
    }
    first := Some(r.triple);
    second := FreshResolve(built.text, disk, path, ownIdentity, draw);
  }

  /** A new builder without overrides resolves to what the state file holds, and only that; without a file to its own parts. */
  method FreshResolve(text: StateText, disk: Disk, path: Path, ownIdentity: Identity, draw: Option<nat>) returns (t: Option<Triple>)
    ensures t == if path + STATE_FILENAME in disk.files then text.decode(disk.files[path + STATE_FILENAME])
                 else if draw.Some? then Some(Triple(ownIdentity, Carrier.Off, draw.value)) else None
  {
    var builder := new ServerBuilder(text, ownIdentity);
    builder.StatefilePath(path);
    var resolved := builder.Resolve(disk, draw);
    t := if resolved.Some? then Some(resolved.value.triple) else None;
  }

  function Or<T>(own: Option<T>, stored: T): T {
    if own.Some? then own.value else stored
  }

  /**
   Values set by hand take precedence over stored ones, each on its own: whichever of keys,
   node id and mode are set, the built server has them, and everything else, the seed
   included, is what the state file held.
   */
  method ManualValuesWin(text: StateText, disk: Disk, path: Path, ownIdentity: Identity, state: Triple,
                         keys: Option<nat>, id: Option<nat>, iat: Option<Iat>, draw: Option<nat>) returns (r: BuildResult)
    requires path + STATE_FILENAME in disk.files && text.decode(disk.files[path + STATE_FILENAME]) == Some(state)
    modifies disk
    ensures r == Built(Triple(Identity(Or(keys, state.identity.keys), Or(id, state.identity.nodeId)), Or(iat, state.iat), state.seed))
    ensures disk.files == if keys.None? && id.None? && iat.None? then old(disk.files)
                          else old(disk.files)[path + STATE_FILENAME := text.encode(r.triple)]
  {
    var builder := Configured(text, path, ownIdentity, keys, id, iat);
    assert builder.Stored(disk.files) == Some(disk.files[path + STATE_FILENAME]);
    r := builder.TryBuild(disk, draw, Written);
  }

  /** A new builder with a state directory and whichever of keys, node id and mode are given. */
  method Configured(text: StateText, path: Path, ownIdentity: Identity, keys: Option<nat>, id: Option<nat>, iat: Option<Iat>)
    returns (builder: ServerBuilder)
    ensures fresh(builder) && builder.Valid() && builder.text == text && builder.cache == None && !builder.configError
    ensures builder.Target() == Some(path + STATE_FILENAME) && builder.persistStatefile
    ensures builder.overrides == Overrides(keys.Some?, id.Some?, iat.Some?, false)
    ensures builder.identity == Identity(Or(keys, ownIdentity.keys), Or(id, ownIdentity.nodeId)) && builder.iatMode == Or(iat, Carrier.Off)
  {
    builder := new ServerBuilder(text, ownIdentity);
    builder.StatefilePath(path);
    if keys.Some? {
      builder.NodeKeys(keys.value, true);
    }
    if id.Some? {
      builder.NodeId(id.value);
    }
    if iat.Some? {
      builder.IatMode(iat.value);
    }
  }

  datatype Op = ClientParams(draw: Option<nat>) | Build(draw: Option<nat>, answer: Write) | OthersWrite(files: map<Path, Contents>)

  datatype Answer = Reported(params: Option<(Identity, Iat)>) | Ended(result: BuildResult) | Nothing

  /** An answer that tells the configuration does so in agreement with the triple. */
  predicate Tells(a: Answer, t: Triple) {
    match a
    case Reported(p) => p == Some((t.identity, t.iat))
    case Ended(r) => r == Built(t)
    case Nothing => false
  }

  predicate IsTelling(a: Answer) {
    (a.Reported? && a.params.Some?) || (a.Ended? && a.result.Built?)
  }

  /** The answer is of the kind the call gives. */
  predicate Fits(op: Op, a: Answer) {
    match op
    case ClientParams(_) => a.Reported?
    case Build(_, _) => a.Ended?
    case OthersWrite(_) => a.Nothing?
  }

  /**
   Reports, builds and foreign writes in any order, with no setter in between: there is one
   triple that all reports and all servers tell, and once it was told every report tells it.
   */
  method AnySession(builder: ServerBuilder, disk: Disk, ops: seq<Op>) returns (answers: seq<Answer>, ghost one: Triple)
    requires builder.Valid() && builder.reported == None
    modifies builder, disk
    ensures |answers| == |ops| && forall i :: 0 <= i < |ops| ==> Fits(ops[i], answers[i])
    ensures forall i :: 0 <= i < |ops| && IsTelling(answers[i]) ==> Tells(answers[i], one)
    ensures forall i, j :: 0 <= i < j < |ops| && IsTelling(answers[i]) && ops[j].ClientParams? ==> IsTelling(answers[j])
  {
    answers := [];
    for i := 0 to |ops|
      invariant builder.Valid() && |answers| == i && forall j :: 0 <= j < i ==> Fits(ops[j], answers[j])
      invariant forall j :: 0 <= j < i && IsTelling(answers[j]) ==>
                  !builder.configError && builder.reported.Some? && Tells(answers[j], builder.reported.value)
      invariant forall j, k :: 0 <= j < k < i && IsTelling(answers[j]) && ops[k].ClientParams? ==> IsTelling(answers[k])
    {
      match ops[i] {
        case ClientParams(draw) =>
          var r := builder.TryClientParams(disk, draw);
          answers := answers + [Reported(r)];
        case Build(draw, answer) =>
          var r := builder.TryBuild(disk, draw, answer);
          answers := answers + [Ended(r)];
        case OthersWrite(files) =>
          disk.Interfere(files);
          answers := answers + [Nothing];
      }
    }
    one := if builder.reported.Some? then builder.reported.value else Triple(Identity(0, 0), Carrier.Off, 0);
  }
}
