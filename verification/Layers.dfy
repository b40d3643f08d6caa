/** Layered resolution: several rungs of configuration, one answer for each key, and who gave it. */
module Layers {
  import opened Bytes

  datatype Key = NasStore | Store | LogSink | LogService | Off
  const KEYS: seq<Key> := [NasStore, Store, LogSink, LogService, Off]

  datatype Rung = Machine | User | Environment | Default
  datatype Origin = Origin(rung: Rung, path: Bytes)
  const NOBODY := Origin(Default, [])

  /** The five values of a configuration. Empty means that the key is not set. */
  datatype Values = Values(nasStore: Bytes, store: Bytes, logSink: Bytes, logService: Bytes, off: map<Bytes, Bytes>)
  const NOTHING := Values([], [], [], [], map[])

  datatype Value = Text(text: Bytes) | Entries(off: map<Bytes, Bytes>)

  function Get(v: Values, key: Key): Value {
    match key
    case NasStore => Text(v.nasStore)
    case Store => Text(v.store)
    case LogSink => Text(v.logSink)
    case LogService => Text(v.logService)
    case Off => Entries(v.off)
  }

  function PutText(v: Values, key: Key, text: Bytes): Values
    requires key != Off
  {
    match key
    case NasStore => v.(nasStore := text)
    case Store => v.(store := text)
    case LogSink => v.(logSink := text)
    case LogService => v.(logService := text)
    case Off => v
  }

  predicate IsSet(v: Values, key: Key) {
    match Get(v, key)
    case Text(t) => t != []
    case Entries(m) => |m| > 0
  }

  function Empty(key: Key): Value {
    if key == Off then Entries(map[]) else Text([])
  }

  /** A key is set when it has anything in it. */
  lemma SetIsNotEmpty(v: Values, key: Key)
    ensures IsSet(v, key) <==> Get(v, key) != Empty(key)
  {
    if key == Off && |v.off| == 0 {
      assert v.off == map[];
    }
  }

  // ------------------------------------------------------ the specification

  /** One rung: its name, the file behind it, and the values it gives. */
  datatype Source = Source(rung: Rung, path: Bytes, values: Values)

  /** The first of the sources, nearest first, that sets the key. */
  function Nearest(sources: seq<Source>, key: Key): Option<Source> {
    if |sources| == 0 then None
    else if IsSet(sources[0].values, key) then Some(sources[0])
    else Nearest(sources[1..], key)
  }

  /** Who gave each of the five values. */
  datatype Provenance = Provenance(nasStore: Origin, store: Origin, logSink: Origin, logService: Origin, off: Origin)

  function From(p: Provenance, key: Key): Origin {
    match key
    case NasStore => p.nasStore
    case Store => p.store
    case LogSink => p.logSink
    case LogService => p.logService
    case Off => p.off
  }

  /** What a configuration says: its values, and an origin for every key. */
  datatype View = View(values: Values, origin: Provenance)

  ghost predicate Answers(v: View, sources: seq<Source>) {
    forall key ::
      match Nearest(sources, key)
      case None => Get(v.values, key) == Empty(key) && From(v.origin, key) == NOBODY
      case Some(s) => Get(v.values, key) == Get(s.values, key) && From(v.origin, key) == Origin(s.rung, s.path)
  }

  /** Views that agree on every key are equal. */
  lemma SameView(v: View, w: View)
    requires forall key :: Get(v.values, key) == Get(w.values, key) && From(v.origin, key) == From(w.origin, key)
    ensures v == w
  {
    assert Get(v.values, NasStore) == Get(w.values, NasStore) && From(v.origin, NasStore) == From(w.origin, NasStore);
    assert Get(v.values, Store) == Get(w.values, Store) && From(v.origin, Store) == From(w.origin, Store);
    assert Get(v.values, LogSink) == Get(w.values, LogSink) && From(v.origin, LogSink) == From(w.origin, LogSink);
    assert Get(v.values, LogService) == Get(w.values, LogService) && From(v.origin, LogService) == From(w.origin, LogService);
    assert Get(v.values, Off) == Get(w.values, Off) && From(v.origin, Off) == From(w.origin, Off);
  }

  /** The answer is the only one: values and origins are both determined by the sources. */
  lemma AnswerIsOnly(v: View, w: View, sources: seq<Source>)
    requires Answers(v, sources) && Answers(w, sources)
    ensures v == w
  {
    hide Get, From;
    forall key
      ensures Get(v.values, key) == Get(w.values, key) && From(v.origin, key) == From(w.origin, key)
    {
      assert Nearest(sources, key) == Nearest(sources, key);
    }
    SameView(v, w);
  }

  /** A key says default exactly when no source sets it. */
  lemma DefaultIsUnset(v: View, sources: seq<Source>, key: Key)
    requires Answers(v, sources) && forall i :: 0 <= i < |sources| ==> sources[i].rung != Default
    ensures From(v.origin, key).rung == Default <==> !IsSet(v.values, key)
    ensures From(v.origin, key).rung == Default <==> forall i :: 0 <= i < |sources| ==> !IsSet(sources[i].values, key)
  {
    NearestIs(sources, key);
  }

  lemma {:induction false} NearestIs(sources: seq<Source>, key: Key)
    ensures Nearest(sources, key).None? <==> forall i :: 0 <= i < |sources| ==> !IsSet(sources[i].values, key)
    ensures Nearest(sources, key).Some? ==> Nearest(sources, key).value in sources && IsSet(Nearest(sources, key).value.values, key)
  {
    if |sources| > 0 {
      NearestIs(sources[1..], key);
    }
  }

  /** Laying one view over another, key by key. */
  function Pick(base: Values, over: Values, key: Key): Value {
    if IsSet(over, key) then Get(over, key) else Get(base, key)
  }

  function PickOrigin(base: View, over: View, key: Key): Origin {
    if IsSet(over.values, key) then From(over.origin, key) else From(base.origin, key)
  }

  function Overlay(base: View, over: View): View {
    View(Values(Pick(base.values, over.values, NasStore).text, Pick(base.values, over.values, Store).text,
                Pick(base.values, over.values, LogSink).text, Pick(base.values, over.values, LogService).text,
                Pick(base.values, over.values, Off).off),
         Provenance(PickOrigin(base, over, NasStore), PickOrigin(base, over, Store), PickOrigin(base, over, LogSink),
                    PickOrigin(base, over, LogService), PickOrigin(base, over, Off)))
  }

  const EMPTY := View(NOTHING, Provenance(NOBODY, NOBODY, NOBODY, NOBODY, NOBODY))

  /** What an overlay says of one key. */
  lemma OverlayAt(base: View, over: View, key: Key)
    ensures var r := Overlay(base, over);
      && Get(r.values, key) == Pick(base.values, over.values, key) && From(r.origin, key) == PickOrigin(base, over, key)
      && (IsSet(r.values, key) <==> IsSet(over.values, key) || IsSet(base.values, key))
  {
  }

  /** Merging is associative. */
  lemma OverlayIsAssociative(a: View, b: View, c: View)
    ensures Overlay(Overlay(a, b), c) == Overlay(a, Overlay(b, c))
  {
    hide Get, From, Overlay, IsSet;
    var v, w := Overlay(Overlay(a, b), c), Overlay(a, Overlay(b, c));
    forall key
      ensures Get(v.values, key) == Get(w.values, key) && From(v.origin, key) == From(w.origin, key)
    {
      OverlayAt(a, b, key);
      OverlayAt(b, c, key);
      OverlayAt(Overlay(a, b), c, key);
      OverlayAt(a, Overlay(b, c), key);
    }
    SameView(v, w);
  }

  /** The empty configuration over another changes nothing; another over it changes nothing when its origins are tidy. */
  lemma EmptyIsIdentity(a: View)
    ensures Overlay(a, EMPTY) == a
    ensures Overlay(EMPTY, a) == a <==> Tidy(a)
  {
    hide Get, From, Overlay, IsSet;
    var v, w := Overlay(a, EMPTY), Overlay(EMPTY, a);
    forall key
      ensures Get(v.values, key) == Get(a.values, key) && From(v.origin, key) == From(a.origin, key)
      ensures Get(w.values, key) == Get(a.values, key)
      ensures From(w.origin, key) == if IsSet(a.values, key) then From(a.origin, key) else NOBODY
    {
      OverlayAt(a, EMPTY, key);
      OverlayAt(EMPTY, a, key);
      NothingAt(a.values, key);
    }
    SameView(v, a);
    if Tidy(a) {
      SameView(w, a);
    }
  }

  lemma NothingAt(v: Values, key: Key)
    ensures !IsSet(NOTHING, key) && From(EMPTY.origin, key) == NOBODY && Get(NOTHING, key) == Empty(key)
    ensures !IsSet(v, key) ==> Get(v, key) == Empty(key)
  {
  }

  function Mark(s: Source, key: Key): Origin {
    if IsSet(s.values, key) then Origin(s.rung, s.path) else NOBODY
  }

  /** A source on its own: each key it sets comes from it. */
  function Marked(s: Source): View {
    View(s.values, Provenance(Mark(s, NasStore), Mark(s, Store), Mark(s, LogSink), Mark(s, LogService), Mark(s, Off)))
  }

  lemma MarkedAt(s: Source, key: Key)
    ensures From(Marked(s).origin, key) == Mark(s, key)
  {
  }

  /** A key that is not set carries no origin. */
  ghost predicate Tidy(v: View) {
    forall key :: !IsSet(v.values, key) ==> From(v.origin, key) == NOBODY
  }

  lemma MarkedIsTidy(s: Source)
    ensures Tidy(Marked(s)) && Overlay(EMPTY, Marked(s)) == Marked(s)
  {
    hide Overlay, Get, IsSet;
    forall key | !IsSet(Marked(s).values, key)
      ensures From(Marked(s).origin, key) == NOBODY
    {
      MarkedAt(s, key);
    }
    EmptyIsIdentity(Marked(s));
  }

  /** Merging keeps origins tidy, so the empty configuration is an identity on both sides for all that is built here. */
  lemma OverlayIsTidy(base: View, over: View)
    requires Tidy(base) && Tidy(over)
    ensures Tidy(Overlay(base, over)) && Overlay(EMPTY, Overlay(base, over)) == Overlay(base, over)
  {
    hide Overlay, Get, IsSet, From;
    forall key | !IsSet(Overlay(base, over).values, key)
      ensures From(Overlay(base, over).origin, key) == NOBODY
    {
      OverlayAt(base, over, key);
    }
    EmptyIsIdentity(Overlay(base, over));
  }

  lemma EmptyIsTidy()
    ensures Tidy(EMPTY)
  {
  }

  lemma ValuesOf(s: Source)
    ensures Marked(s).values == s.values
  {
  }

  /** Laying a nearer source over an answer gives the answer with that source in front. */
  lemma OverlayAnswers(base: View, sources: seq<Source>, near: Source)
    requires Answers(base, sources)
    ensures Answers(Overlay(base, Marked(near)), [near] + sources)
  {
    hide Get, From, Overlay, IsSet, Empty;
    var r := Overlay(base, Marked(near));
    forall key
      ensures match Nearest([near] + sources, key)
              case None => Get(r.values, key) == Empty(key) && From(r.origin, key) == NOBODY
              case Some(s) => Get(r.values, key) == Get(s.values, key) && From(r.origin, key) == Origin(s.rung, s.path)
    {
      OverlayAt(base, Marked(near), key);
      MarkedAt(near, key);
      assert ([near] + sources)[1..] == sources;
      assert Nearest(sources, key) == Nearest(sources, key);
    }
  }

  lemma EmptyAnswers()
    ensures Answers(EMPTY, [])
  {
  }

  // -------------------------------------------------------------- the code

  /** The map of origins, shared by every copy of the configuration that holds it. */
  class Origins {
    var m: map<Key, Origin>

    constructor ()
      ensures m == map[]
    {
      m := map[];
    }
  }

  /** A configuration is passed by value; its origins are a reference, nil until the first is recorded. */
  datatype Config = Config(values: Values, origins: Origins?)

  function Refs(c: Config): set<Origins> {
    if c.origins == null then {} else {c.origins}
  }

  function OriginOf(c: Config, key: Key): Origin
    reads Refs(c)
  {
    if c.origins != null && key in c.origins.m then c.origins.m[key] else NOBODY
  }

  function ViewOf(c: Config): View
    reads Refs(c)
  {
    View(c.values, Provenance(OriginOf(c, NasStore), OriginOf(c, Store), OriginOf(c, LogSink), OriginOf(c, LogService), OriginOf(c, Off)))
  }

  /** The origin of one key is recorded, in place once there is a map. */
  method Record(c: Config, key: Key, o: Origin) returns (r: Config)
    modifies Refs(c)
    ensures r.values == c.values && r.origins != null
    ensures if c.origins == null then fresh(r.origins) else r.origins == c.origins
    ensures forall k :: OriginOf(r, k) == if k == key then o else old(OriginOf(c, k))
  {
    r := c;
    if r.origins == null {
      var made := new Origins();
      r := r.(origins := made);
    }
    r.origins.m := r.origins.m[key := o];
  }

  function Place(key: Key): (i: nat)
    ensures i < |KEYS| && KEYS[i] == key
    ensures forall j :: 0 <= j < |KEYS| && KEYS[j] == key ==> j == i
  {
    match key
    case NasStore => 0
    case Store => 1
    case LogSink => 2
    case LogService => 3
    case Off => 4
  }

  lemma PutAt(v: Values, key: Key, x: Values)
    ensures forall k :: Get(Put(v, key, x), k) == if k == key then Get(x, key) else Get(v, k)
  {
  }

  function Put(v: Values, key: Key, x: Values): Values {
    match key
    case NasStore => v.(nasStore := x.nasStore)
    case Store => v.(store := x.store)
    case LogSink => v.(logSink := x.logSink)
    case LogService => v.(logService := x.logService)
    case Off => v.(off := x.off)
  }

  /** One turn of merge. */
  method MergeKey(c: Config, over: Config, key: Key) returns (r: Config)
    modifies Refs(c)
    ensures if c.origins == null then r.origins == null || fresh(r.origins) else r.origins == c.origins
    ensures forall k :: Get(r.values, k) == if k == key then Pick(c.values, over.values, k) else Get(c.values, k)
    ensures forall k ::
      OriginOf(r, k) == (if k == key && IsSet(over.values, k) then old(OriginOf(over, k)) else old(OriginOf(c, k)))
    ensures forall k :: OriginOf(over, k) == old(OriginOf(over, k))
  {
    hide IsSet, Get, Put;
    r := c;
    if IsSet(over.values, key) {
      PutAt(r.values, key, over.values);
      r := r.(values := Put(r.values, key, over.values));
      r := Record(r, key, OriginOf(over, key));
    }
  }

  /** merge writes into the base's own map of origins, if it has one, and into no other. */
  method Merge(base: Config, over: Config) returns (r: Config)
    modifies Refs(base)
    ensures ViewOf(r) == Overlay(old(ViewOf(base)), old(ViewOf(over)))
    ensures if base.origins == null then r.origins == null || fresh(r.origins) else r.origins == base.origins
    ensures old(Tidy(ViewOf(base))) && old(Tidy(ViewOf(over))) ==> Tidy(ViewOf(r))
  {
    hide IsSet, Get, Put, Overlay, Tidy;
    r := base;
    var i := 0;
    while i < |KEYS|
      invariant 0 <= i <= |KEYS|
      invariant if base.origins == null then r.origins == null || fresh(r.origins) else r.origins == base.origins
      invariant forall k :: Get(r.values, k) == if Place(k) < i then Pick(base.values, over.values, k) else Get(base.values, k)
      invariant forall k ::
        OriginOf(r, k) == (if Place(k) < i && IsSet(over.values, k) then old(OriginOf(over, k)) else old(OriginOf(base, k)))
      invariant forall k :: OriginOf(over, k) == old(OriginOf(over, k))
    {
      r := MergeKey(r, over, KEYS[i]);
      i := i + 1;
    }
    Merged(r, old(ViewOf(base)), old(ViewOf(over)));
    if old(Tidy(ViewOf(base))) && old(Tidy(ViewOf(over))) {
      OverlayIsTidy(old(ViewOf(base)), old(ViewOf(over)));
    }
  }

  /** Key by key is the whole of it. */
  lemma Merged(r: Config, was: View, top: View)
    requires forall k :: Get(r.values, k) == Pick(was.values, top.values, k) && OriginOf(r, k) == PickOrigin(was, top, k)
    ensures ViewOf(r) == Overlay(was, top)
  {
    hide Overlay, IsSet, Get;
    forall k
      ensures Get(ViewOf(r).values, k) == Get(Overlay(was, top).values, k)
      ensures From(ViewOf(r).origin, k) == From(Overlay(was, top).origin, k)
    {
      OverlayAt(was, top, k);
    }
    SameView(ViewOf(r), Overlay(was, top));
  }

  /** The keys a decoded source sets are marked as coming from it. */
  method Decode(values: Option<Values>, path: Bytes, rung: Rung) returns (r: Option<Config>)
    ensures r.Some? <==> values.Some?
    ensures r.Some? ==> ViewOf(r.value) == Marked(Source(rung, path, values.value)) && fresh(Refs(r.value))
    ensures r.Some? ==> Tidy(ViewOf(r.value))
  {
    if values.None? {
      return None;
    }
    var c := Config(values.value, null);
    c := MarkAll(c, rung, path);
    ghost var s := Source(rung, path, values.value);
    forall k
      ensures Get(ViewOf(c).values, k) == Get(s.values, k) && From(ViewOf(c).origin, k) == From(Marked(s).origin, k)
    {
      MarkedAt(s, k);
    }
    SameView(ViewOf(c), Marked(s));
    MarkedIsTidy(s);
    return Some(c);
  }

  method MarkAll(c: Config, rung: Rung, path: Bytes) returns (r: Config)
    modifies Refs(c)
    ensures r.values == c.values && (r.origins == c.origins || fresh(r.origins))
    ensures forall k :: OriginOf(r, k) == if IsSet(c.values, k) then Origin(rung, path) else old(OriginOf(c, k))
  {
    hide IsSet, Get;
    r := c;
    var i := 0;
    while i < |KEYS|
      invariant 0 <= i <= |KEYS| && r.values == c.values
      invariant r.origins == c.origins || (r.origins != null && fresh(r.origins))
      invariant forall k ::
        OriginOf(r, k) == (if Place(k) < i && IsSet(c.values, k) then Origin(rung, path) else old(OriginOf(c, k)))
    {
      if IsSet(r.values, KEYS[i]) {
        r := Record(r, KEYS[i], Origin(rung, path));
      }
      i := i + 1;
    }
  }

  /** The run's overrides as a source: they name the four text keys and never off. */
  function Overrides(environment: Key -> Bytes): Source {
    Source(Environment, [], Values(environment(NasStore), environment(Store), environment(LogSink), environment(LogService), map[]))
  }

  /** One turn of its loop: an override that is not empty takes the key's place. */
  method OverrideKey(c: Config, key: Key, v: Bytes) returns (r: Config)
    requires key != Off
    modifies Refs(c)
    ensures r.origins == c.origins || (r.origins != null && fresh(r.origins))
    ensures forall k :: Get(r.values, k) == if k == key && v != [] then Text(v) else Get(c.values, k)
    ensures forall k :: OriginOf(r, k) == if k == key && v != [] then Origin(Environment, []) else old(OriginOf(c, k))
  {
    hide Get, PutText;
    r := c;
    if v != [] {
      TextAt(r.values, key, v);
      r := r.(values := PutText(r.values, key, v));
      r := Record(r, key, Origin(Environment, []));
    }
  }

  method ApplyEnvironment(c: Config, environment: Key -> Bytes) returns (r: Config)
    modifies Refs(c)
    ensures ViewOf(r) == Overlay(old(ViewOf(c)), Marked(Overrides(environment)))
    ensures r.origins == c.origins || fresh(r.origins)
    ensures old(Tidy(ViewOf(c))) ==> Tidy(ViewOf(r))
  {
    hide Get, Put, Tidy;
    r := c;
    ghost var over := Overrides(environment);
    OverridesAt(environment);
    hide Overrides, IsSet;
    var i := 0;
    while i < |KEYS|
      invariant 0 <= i <= |KEYS|
      invariant r.origins == c.origins || (r.origins != null && fresh(r.origins))
      invariant forall k :: Get(r.values, k) == if Place(k) < i then Pick(c.values, over.values, k) else Get(c.values, k)
      invariant forall k ::
        OriginOf(r, k) == (if Place(k) < i && IsSet(over.values, k) then Origin(Environment, []) else old(OriginOf(c, k)))
    {
      if KEYS[i] != Off {
        r := OverrideKey(r, KEYS[i], environment(KEYS[i]));
      }
      i := i + 1;
    }
    forall k
      ensures From(Marked(over).origin, k) == Mark(over, k)
    {
      MarkedAt(over, k);
    }
    Merged(r, old(ViewOf(c)), Marked(over));
    MarkedIsTidy(over);
    if old(Tidy(ViewOf(c))) {
      OverlayIsTidy(old(ViewOf(c)), Marked(over));
    }
  }

  lemma OverridesAt(environment: Key -> Bytes)
    ensures var over := Overrides(environment);
      over.rung == Environment && over.path == [] && !IsSet(over.values, Off)
      && forall k :: k != Off ==> Get(over.values, k) == Text(environment(k)) && (IsSet(over.values, k) <==> environment(k) != [])
  {
  }

  lemma TextAt(v: Values, key: Key, text: Bytes)
    requires key != Off
    ensures forall k :: Get(PutText(v, key, text), k) == if k == key then Text(text) else Get(v, k)
  {
  }

  /** The rungs that were read, nearest first: the overrides, then the user's record, then the machine's. */
  function Rungs(environment: Key -> Bytes, user: Option<Values>, path: Bytes, machine: Option<Values>, machinePath: Bytes): seq<Source> {
    [Overrides(environment)] + (if user.Some? then [Source(User, path, user.value)] else [])
    + (if machinePath != [] && machine.Some? then [Source(Machine, machinePath, machine.value)] else [])
  }

  /** Key by key: the run's override if there is one, else the user's setting, else the machine's, else nothing. */
  lemma RungsInOrder(v: View, environment: Key -> Bytes, user: Option<Values>, path: Bytes, machine: Option<Values>,
                     machinePath: Bytes, key: Key)
    requires Answers(v, Rungs(environment, user, path, machine, machinePath))
    ensures var x, from := Get(v.values, key), From(v.origin, key);
      if key != Off && environment(key) != [] then x == Text(environment(key)) && from == Origin(Environment, [])
      else if user.Some? && Get(user.value, key) != Empty(key) then x == Get(user.value, key) && from == Origin(User, path)
      else if machinePath != [] && machine.Some? && Get(machine.value, key) != Empty(key) then
        x == Get(machine.value, key) && from == Origin(Machine, machinePath)
      else x == Empty(key) && from == Origin(Default, [])
  {
    hide Get, IsSet, Empty, Overrides, From;
    OverridesAt(environment);
    var far := if machinePath != [] && machine.Some? then [Source(Machine, machinePath, machine.value)] else [];
    var near := if user.Some? then [Source(User, path, user.value)] else [];
    var over: seq<Source> := [Overrides(environment)];
    assert over + near + far == over + (near + far);
    NearestOf(Overrides(environment), near + far, key);
    if user.Some? {
      SetIsNotEmpty(user.value, key);
      NearestOf(Source(User, path, user.value), far, key);
    } else {
      assert near + far == far;
    }
    if machinePath != [] && machine.Some? {
      SetIsNotEmpty(machine.value, key);
      NearestOf(Source(Machine, machinePath, machine.value), [], key);
      assert far + [] == far;
    }
    assert Nearest(over + (near + far), key) == Nearest(Rungs(environment, user, path, machine, machinePath), key);
  }

  lemma NearestOf(s: Source, rest: seq<Source>, key: Key)
    ensures Nearest([s] + rest, key) == if IsSet(s.values, key) then Some(s) else Nearest(rest, key)
    ensures Nearest([], key) == None
  {
    assert ([s] + rest)[1..] == rest;
  }

  /** The machine's rung, if it is read at all: a configuration of its own and the sources it answers for. */
  method LoadMachine(machine: Option<Values>, machinePath: Bytes) returns (base: Config, ghost sources: seq<Source>)
    ensures fresh(Refs(base)) && Answers(ViewOf(base), sources) && Tidy(ViewOf(base))
    ensures sources == if machinePath != [] && machine.Some? then [Source(Machine, machinePath, machine.value)] else []
  {
    hide Overlay, Get, IsSet, Answers, Marked, Tidy;
    EmptyAnswers();
    EmptyIsTidy();
    sources := [];
    base := Config(NOTHING, null);
    assert ViewOf(base) == EMPTY;
    if machinePath != [] {
      var loaded := Decode(machine, machinePath, Machine);
      if loaded.Some? {
        base := loaded.value;
        OverlayAnswers(EMPTY, sources, Source(Machine, machinePath, machine.value));
        sources := [Source(Machine, machinePath, machine.value)] + sources;
        MarkedIsTidy(Source(Machine, machinePath, machine.value));
      }
    }
  }

  /** The user's rung: empty when the record is missing or does not decode, and marked once more otherwise. */
  method LoadUser(user: Option<Values>, path: Bytes) returns (near: Config)
    ensures fresh(Refs(near)) && Tidy(ViewOf(near))
    ensures ViewOf(near) == if user.Some? then Marked(Source(User, path, user.value)) else EMPTY
  {
    hide Get, IsSet, Marked, Tidy;
    near := Config(NOTHING, null);
    assert ViewOf(near) == EMPTY;
    var decoded := Decode(user, path, User);
    if decoded.Some? {
      near := decoded.value;
    }
    near := MarkAll(near, User, path);
    ghost var expected := if user.Some? then Marked(Source(User, path, user.value)) else EMPTY;
    forall k
      ensures Get(ViewOf(near).values, k) == Get(expected.values, k) && From(ViewOf(near).origin, k) == From(expected.origin, k)
    {
      NothingAt(NOTHING, k);
      if user.Some? {
        MarkedAt(Source(User, path, user.value), k);
        ValuesOf(Source(User, path, user.value));
      }
    }
    SameView(ViewOf(near), expected);
    EmptyIsTidy();
    if user.Some? {
      MarkedIsTidy(Source(User, path, user.value));
    }
  }

  /**
   * loadWithSources: a failed read of the user's storage is an error, whatever the other rungs say.
   * Otherwise for every key the answer is the nearest source that sets it, and the origin names that
   * source; a record that is missing or does not decode counts as absent.
   */
  method LoadWithSources(storage: Option<Option<Values>>, path: Bytes, machine: Option<Values>, machinePath: Bytes,
                         environment: Key -> Bytes) returns (r: Option<Config>)
    ensures r.Some? <==> storage.Some?
    ensures r.Some? ==> Answers(ViewOf(r.value), Rungs(environment, storage.value, path, machine, machinePath))
    ensures r.Some? ==> forall key :: key != Off && environment(key) != [] ==>
      Get(r.value.values, key) == Text(environment(key)) && OriginOf(r.value, key) == Origin(Environment, [])
    ensures r.Some? ==>
      forall key :: (key == Off || environment(key) == []) && storage.value.Some? && Get(storage.value.value, key) != Empty(key) ==>
        Get(r.value.values, key) == Get(storage.value.value, key) && OriginOf(r.value, key) == Origin(User, path)
    ensures r.Some? ==> Tidy(ViewOf(r.value))
  {
    hide Overlay, Get, IsSet, Answers, Marked, Overrides, Tidy;
    if storage.None? {
      return None;
    }
    var user := storage.value;
    ghost var sources: seq<Source>;
    var base;
    base, sources := LoadMachine(machine, machinePath);
    var near := LoadUser(user, path);
    ghost var was := ViewOf(base);
    base := Merge(base, near);
    if user.Some? {
      OverlayAnswers(was, sources, Source(User, path, user.value));
      sources := [Source(User, path, user.value)] + sources;
    } else {
      EmptyIsIdentity(was);
    }
    was := ViewOf(base);
    var c := ApplyEnvironment(base, environment);
    OverlayAnswers(was, sources, Overrides(environment));
    assert [Overrides(environment)] + sources == Rungs(environment, user, path, machine, machinePath);
    forall key
      ensures key != Off && environment(key) != [] ==>
        Get(c.values, key) == Text(environment(key)) && OriginOf(c, key) == Origin(Environment, [])
      ensures (key == Off || environment(key) == []) && user.Some? && Get(user.value, key) != Empty(key) ==>
        Get(c.values, key) == Get(user.value, key) && OriginOf(c, key) == Origin(User, path)
    {
      RungsInOrder(ViewOf(c), environment, user, path, machine, machinePath, key);
    }
    return Some(c);
  }
}
