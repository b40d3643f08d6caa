/** Every stored user record the editor accepts can be sent back in one frame. */
module FrameBound {
  import opened Bytes
  import opened Grammar
  import opened Records
  import opened Strings
  import Keys
  import L = Lockstep
  import Layers
  import Meaning
  import Rpc
  import Schemas
  import Texts

  const MAX_FILE := 0x4_0000
  const MAX_FRAME := 0x10_0000

  // ------------------------------------------------ what the record says

  function KeyNamed(name: Bytes): Option<Layers.Key> {
    if name == Ascii("nas_store") then Some(Layers.NasStore)
    else if name == Ascii("store") then Some(Layers.Store)
    else if name == Ascii("log_sink") then Some(Layers.LogSink)
    else if name == Ascii("log_service") then Some(Layers.LogService)
    else if name == Ascii("off") then Some(Layers.Off)
    else None
  }

  lemma Opened(m: Member)
    requires GoodMember(m, true) && PairedMember(m, true)
    ensures m.key.Key? && GoodText(m.key.t) && Paired(m.key.t) && WellFormed(m.v) && AllPaired(m.v)
    ensures m.v.String? ==> GoodText(m.v.t) && Paired(m.v.t)
    ensures m.v.Full? && m.v.isObj ==> GoodMembers(m.v.ms, true) && PairedMembers(m.v.ms, true)
  {
  }

  lemma Split(ms: Members)
    requires GoodMembers(ms, true) && PairedMembers(ms, true)
    ensures GoodMember(ms.m, true) && PairedMember(ms.m, true)
    ensures ms.More? ==> GoodMembers(ms.rest, true) && PairedMembers(ms.rest, true)
  {
  }

  /** The name of a member, and its value when that is a string. */
  function NameOf(m: Member): Bytes
    requires GoodMember(m, true) && PairedMember(m, true)
  {
    Opened(m);
    Decoded(m.key.t)
  }

  function TextOf(m: Member): Bytes
    requires GoodMember(m, true) && PairedMember(m, true) && m.v.String?
  {
    Opened(m);
    Decoded(m.v.t)
  }

  /** An object whose values are all strings. */
  predicate Reasons(ms: Members)
    requires GoodMembers(ms, true) && PairedMembers(ms, true)
  {
    Split(ms);
    ms.m.v.String? && (ms.More? ==> Reasons(ms.rest))
  }

  predicate Setting(m: Member)
    requires GoodMember(m, true) && PairedMember(m, true)
  {
    Opened(m);
    var key := KeyNamed(NameOf(m));
    && key.Some?
    && (if key.value != Layers.Off then m.v.String?
        else (m.v.Empty? && m.v.isObj) || (m.v.Full? && m.v.isObj && Reasons(m.v.ms)))
  }

  /** Every member is a setting and no setting comes twice. */
  predicate Settings(ms: Members, seen: set<Layers.Key>)
    requires GoodMembers(ms, true) && PairedMembers(ms, true)
  {
    Split(ms);
    && Setting(ms.m) && KeyNamed(NameOf(ms.m)).value !in seen
    && (ms.More? ==> Settings(ms.rest, seen + {KeyNamed(NameOf(ms.m)).value}))
  }

  /** A stored record as userSnapshot accepts it. */
  predicate UserRecord(j: Json) {
    && WellFormed(j) && AllPaired(j)
    && ((j.Empty? && j.isObj) || (j.Full? && j.isObj && Settings(j.ms, {})))
  }

  /** The entries of an object of strings: a name that comes again replaces the earlier one. */
  function TakeReasons(ms: Members, acc: map<Bytes, Bytes>): map<Bytes, Bytes>
    requires GoodMembers(ms, true) && PairedMembers(ms, true) && Reasons(ms)
  {
    Split(ms);
    var next := acc[NameOf(ms.m) := TextOf(ms.m)];
    if ms.More? then TakeReasons(ms.rest, next) else next
  }

  function TakeSetting(m: Member, v: Layers.Values): Layers.Values
    requires GoodMember(m, true) && PairedMember(m, true) && Setting(m)
  {
    Opened(m);
    var key := KeyNamed(NameOf(m)).value;
    if key != Layers.Off then Layers.PutText(v, key, TextOf(m))
    else if m.v.Empty? then v.(off := map[])
    else v.(off := TakeReasons(m.v.ms, map[]))
  }

  function TakeSettings(ms: Members, seen: set<Layers.Key>, v: Layers.Values): Layers.Values
    requires GoodMembers(ms, true) && PairedMembers(ms, true) && Settings(ms, seen)
  {
    Split(ms);
    var next := TakeSetting(ms.m, v);
    if ms.More? then TakeSettings(ms.rest, seen + {KeyNamed(NameOf(ms.m)).value}, next) else next
  }

  function ValuesOf(j: Json): Layers.Values
    requires UserRecord(j)
  {
    if j.Empty? then Layers.NOTHING else TakeSettings(j.ms, {}, Layers.NOTHING)
  }

  /** The keys that the members of a record name, one by one; none for a member that is no setting. */
  function KeysOf(ms: Members): seq<Option<Layers.Key>>
    requires GoodMembers(ms, true) && PairedMembers(ms, true)
  {
    Split(ms);
    [if Setting(ms.m) then KeyNamed(NameOf(ms.m)) else None] + (if ms.More? then KeysOf(ms.rest) else [])
  }

  /** All are keys, none of these, and no two are the same. */
  predicate Apart(ks: seq<Option<Layers.Key>>, seen: set<Layers.Key>) {
    && (forall i :: 0 <= i < |ks| ==> ks[i].Some? && ks[i].value !in seen)
    && (forall i, j :: 0 <= i < j < |ks| ==> ks[i] != ks[j])
  }

  lemma ApartFirst(k: Option<Layers.Key>, rest: seq<Option<Layers.Key>>, seen: set<Layers.Key>)
    ensures Apart([k] + rest, seen) <==> k.Some? && k.value !in seen && Apart(rest, seen + {k.value})
  {
    var ks := [k] + rest;
    if Apart(ks, seen) {
      assert ks[0] == k;
      forall i | 0 <= i < |rest|
        ensures rest[i].Some? && rest[i].value !in seen + {k.value}
      {
        assert ks[i + 1] == rest[i] && ks[0] != ks[i + 1];
      }
      forall i, j | 0 <= i < j < |rest|
        ensures rest[i] != rest[j]
      {
        assert ks[i + 1] != ks[j + 1];
      }
    }
    if k.Some? && k.value !in seen && Apart(rest, seen + {k.value}) {
      forall i | 0 <= i < |ks|
        ensures ks[i].Some? && ks[i].value !in seen
      {
        assert i > 0 ==> ks[i] == rest[i - 1];
      }
      forall i, j | 0 <= i < j < |ks|
        ensures ks[i] != ks[j]
      {
        assert ks[j] == rest[j - 1] && (i > 0 ==> ks[i] == rest[i - 1]);
      }
    }
  }

  lemma {:induction false} SettingsAre(ms: Members, seen: set<Layers.Key>)
    requires GoodMembers(ms, true) && PairedMembers(ms, true)
    ensures Settings(ms, seen) <==> Apart(KeysOf(ms), seen)
    decreases ms
  {
    hide GoodMember, PairedMember, NameOf, KeyNamed, Setting, Apart;
    Split(ms);
    var k := if Setting(ms.m) then KeyNamed(NameOf(ms.m)) else None;
    if Setting(ms.m) {
      NamesKey(ms.m);
    }
    var rest := if ms.More? then KeysOf(ms.rest) else [];
    assert KeysOf(ms) == [k] + rest;
    ApartFirst(k, rest, seen);
    if k.Some? && ms.More? {
      SettingsAre(ms.rest, seen + {k.value});
    } else if k.Some? {
      ApartNone(seen + {k.value});
    }
  }

  lemma ApartNone(seen: set<Layers.Key>)
    ensures Apart([], seen)
  {
  }

  /** Which records are accepted: objects whose members are all settings, no two of the same key. */
  lemma RecordIs(j: Json)
    ensures UserRecord(j) <==>
      && WellFormed(j) && AllPaired(j) && (j.Empty? || j.Full?) && j.isObj
      && (j.Full? ==>
            && (forall i :: 0 <= i < |KeysOf(j.ms)| ==> KeysOf(j.ms)[i].Some?)
            && (forall i, l :: 0 <= i < l < |KeysOf(j.ms)| ==> KeysOf(j.ms)[i] != KeysOf(j.ms)[l]))
  {
    hide Settings, KeysOf;
    if WellFormed(j) && AllPaired(j) && j.Full? && j.isObj {
      SettingsAre(j.ms, {});
    }
  }

  /** m is one of the members. */
  predicate Among(m: Member, ms: Members) {
    m == ms.m || (ms.More? && Among(m, ms.rest))
  }

  lemma {:induction false} AmongIsGood(m: Member, ms: Members)
    requires GoodMembers(ms, true) && PairedMembers(ms, true) && Among(m, ms)
    ensures GoodMember(m, true) && PairedMember(m, true)
    decreases ms
  {
    hide GoodMember, PairedMember;
    Split(ms);
    if m != ms.m {
      AmongIsGood(m, ms.rest);
    }
  }

  /** What a setting says: its string, or the entries of its object. */
  function Says(m: Member): Layers.Value
    requires GoodMember(m, true) && PairedMember(m, true) && Setting(m)
  {
    Opened(m);
    if m.v.String? then Layers.Text(TextOf(m))
    else if m.v.Empty? then Layers.Entries(map[])
    else Layers.Entries(TakeReasons(m.v.ms, map[]))
  }

  /** An object of strings is read as the codec reads it: of equal names the last one counts. */
  lemma {:induction false} ReasonsAreSense(ms: Members, acc: map<Bytes, Bytes>, o: nat)
    requires GoodMembers(ms, true) && PairedMembers(ms, true) && Reasons(ms)
    ensures Meaning.MapSense(ms, acc, o) == Meaning.Is(VMap(TakeReasons(ms, acc)))
    decreases ms
  {
    hide GoodMember, PairedMember, Decoded, GoodText, Paired, WellFormed, AllPaired;
    Split(ms);
    Opened(ms.m);
    Meaning.Opened(ms);
    if ms.More? {
      ReasonsAreSense(ms.rest, acc[NameOf(ms.m) := TextOf(ms.m)], Meaning.NextAt(ms, o));
    }
  }

  lemma PutsOne(m: Member, v: Layers.Values, key: Layers.Key)
    requires GoodMember(m, true) && PairedMember(m, true) && Setting(m)
    ensures Layers.Get(TakeSetting(m, v), key) == if KeyNamed(NameOf(m)) == Some(key) then Says(m) else Layers.Get(v, key)
  {
    hide GoodMember, PairedMember, NameOf, TextOf, TakeReasons, KeyNamed;
    Opened(m);
  }

  lemma NamesKey(m: Member)
    requires GoodMember(m, true) && PairedMember(m, true) && Setting(m)
    ensures KeyNamed(NameOf(m)).Some?
  {
  }

  /** Each key has what the setting that names it says, and keeps what it had if none does. */
  lemma {:induction false} SettingsSay(ms: Members, seen: set<Layers.Key>, v: Layers.Values, key: Layers.Key)
    requires GoodMembers(ms, true) && PairedMembers(ms, true) && Settings(ms, seen)
    ensures (forall m :: Among(m, ms) && GoodMember(m, true) && PairedMember(m, true) ==> KeyNamed(NameOf(m)) != Some(key)) ==>
      Layers.Get(TakeSettings(ms, seen, v), key) == Layers.Get(v, key)
    ensures forall m :: Among(m, ms) && GoodMember(m, true) && PairedMember(m, true) && KeyNamed(NameOf(m)) == Some(key) ==>
      Setting(m) && Layers.Get(TakeSettings(ms, seen, v), key) == Says(m)
    ensures forall m :: Among(m, ms) && GoodMember(m, true) && PairedMember(m, true) ==>
      KeyNamed(NameOf(m)).Some? && KeyNamed(NameOf(m)).value !in seen
    decreases ms
  {
    hide GoodMember, PairedMember, NameOf, KeyNamed, TakeSetting, Layers.Get, Says, Setting;
    Split(ms);
    NamesKey(ms.m);
    var own := KeyNamed(NameOf(ms.m)).value;
    PutsOne(ms.m, v, key);
    if ms.More? {
      SettingsSay(ms.rest, seen + {own}, TakeSetting(ms.m, v), key);
    }
  }

  /** What a record says: for each key what the member that names it says, and nothing for a key that none names. */
  lemma RecordSays(j: Json, key: Layers.Key)
    requires UserRecord(j)
    ensures (j.Empty? || forall m :: Among(m, j.ms) && GoodMember(m, true) && PairedMember(m, true) ==> KeyNamed(NameOf(m)) != Some(key)) ==>
      Layers.Get(ValuesOf(j), key) == Layers.Empty(key)
    ensures j.Full? ==>
      forall m :: Among(m, j.ms) && GoodMember(m, true) && PairedMember(m, true) && KeyNamed(NameOf(m)) == Some(key) ==>
        Setting(m) && Layers.Get(ValuesOf(j), key) == Says(m)
  {
    hide GoodMember, PairedMember, NameOf, KeyNamed, TakeSettings, Says, Setting, Settings, Among;
    if j.Full? {
      SettingsSay(j.ms, {}, Layers.NOTHING, key);
    }
  }

  // ----------------------------------------------------------- the weights

  /** The length of a string as it is written, without its quotes. */
  function Width(s: Bytes): nat {
    |EscBody(s)|
  }

  /** What an entry of a map takes on the wire at most, at the deepest indentation there is. */
  function EntryWeight(k: Bytes, v: Bytes): nat {
    20 + Width(k) + Width(v)
  }

  function Weigh(ks: seq<Bytes>, m: map<Bytes, Bytes>): nat
    requires forall k :: k in ks ==> k in m
  {
    if |ks| == 0 then 0 else EntryWeight(ks[0], m[ks[0]]) + Weigh(ks[1..], m)
  }

  ghost function MapWeight(m: map<Bytes, Bytes>): nat {
    var ks := Keys.Sorted(m.Keys);
    assert forall k :: k in ks ==> k in Keys.Elements(ks);
    Weigh(ks, m)
  }

  ghost function Mass(v: Layers.Values): nat {
    Width(v.nasStore) + Width(v.store) + Width(v.logSink) + Width(v.logService) + MapWeight(v.off)
  }

  /** However the keys are listed, the entries weigh no more than w. */
  ghost predicate Bounded(m: map<Bytes, Bytes>, w: nat) {
    forall ks: seq<Bytes> :: Keys.Distinct(ks) && (forall k :: k in ks ==> k in m) ==> Weigh(ks, m) <= w
  }

  lemma {:induction false} WeighCat(a: seq<Bytes>, b: seq<Bytes>, m: map<Bytes, Bytes>)
    requires forall k :: k in a + b ==> k in m
    ensures (forall k :: k in a ==> k in m) && (forall k :: k in b ==> k in m)
    ensures Weigh(a + b, m) == Weigh(a, m) + Weigh(b, m)
  {
    assert forall k :: k in a || k in b ==> k in a + b;
    if |a| == 0 {
      assert a + b == b;
    } else {
      assert (a + b)[1..] == a[1..] + b;
      WeighCat(a[1..], b, m);
    }
  }

  lemma {:induction false} WeighSame(ks: seq<Bytes>, m: map<Bytes, Bytes>, n: map<Bytes, Bytes>)
    requires forall k :: k in ks ==> k in m && k in n && m[k] == n[k]
    ensures Weigh(ks, m) == Weigh(ks, n)
  {
    if |ks| > 0 {
      WeighSame(ks[1..], m, n);
    }
  }

  /** One more entry, new or replacing an old one, adds at most its own weight. */
  lemma BoundedNext(m: map<Bytes, Bytes>, w: nat, k: Bytes, v: Bytes)
    requires Bounded(m, w)
    ensures Bounded(m[k := v], w + EntryWeight(k, v))
  {
    hide EntryWeight, Weigh;
    var n := m[k := v];
    forall ks: seq<Bytes> | Keys.Distinct(ks) && (forall x :: x in ks ==> x in n)
      ensures Weigh(ks, n) <= w + EntryWeight(k, v)
    {
      if k in ks {
        var i :| 0 <= i < |ks| && ks[i] == k;
        Without(ks, i);
        WeighWithout(ks, i, n);
        WeighSame(ks[..i] + ks[i + 1..], n, m);
      } else {
        WeighSame(ks, n, m);
      }
    }
  }

  lemma WeighWithout(ks: seq<Bytes>, i: nat, m: map<Bytes, Bytes>)
    requires i < |ks| && forall k :: k in ks ==> k in m
    ensures var rest := ks[..i] + ks[i + 1..];
      (forall k :: k in rest ==> k in m) && Weigh(ks, m) == Weigh(rest, m) + EntryWeight(ks[i], m[ks[i]])
  {
    hide EntryWeight;
    var rest := ks[..i] + ks[i + 1..];
    assert forall j :: 0 <= j < |rest| ==> rest[j] == if j < i then ks[j] else ks[j + 1];
    assert ks == ks[..i] + ([ks[i]] + ks[i + 1..]);
    WeighCat(ks[..i], [ks[i]] + ks[i + 1..], m);
    WeighCat([ks[i]], ks[i + 1..], m);
    WeighCat(ks[..i], ks[i + 1..], m);
    var one: seq<Bytes> := [ks[i]];
    assert one[1..] == [];
  }

  lemma Without(ks: seq<Bytes>, i: nat)
    requires Keys.Distinct(ks) && i < |ks|
    ensures var rest := ks[..i] + ks[i + 1..]; Keys.Distinct(rest) && ks[i] !in rest && forall x :: x in rest ==> x in ks
  {
    var rest := ks[..i] + ks[i + 1..];
    assert forall j :: 0 <= j < |rest| ==> rest[j] == if j < i then ks[j] else ks[j + 1];
  }

  lemma BoundedWeight(m: map<Bytes, Bytes>, w: nat)
    requires Bounded(m, w)
    ensures MapWeight(m) <= w
  {
    var ks := Keys.Sorted(m.Keys);
    forall i, j | 0 <= i < j < |ks|
      ensures ks[i] != ks[j]
    {
      Keys.LessIsTotal(ks[i], ks[j]);
    }
    assert forall k :: k in ks ==> k in Keys.Elements(ks);
  }

  // -------------------------------------------------------- disk and weight

  /** No spelling of a string is shorter than the one it is sent with. */
  lemma TextIsNoShorter(t: Text)
    requires GoodText(t) && Paired(t)
    ensures Width(Decoded(t)) + 2 <= |Quoted(t)|
  {
    hide SpellText, EscBody, Decoded, Paired, Quoted, Str;
    L.StartsItself(Quoted(t));
    Texts.StrOfText(Quoted(t), 0, t);
    EscIsShortest(Quoted(t), 0);
  }

  lemma MemberIsAtLeast(m: Member)
    requires GoodMember(m, true) && PairedMember(m, true)
    ensures |SpellMember(m, true)| >= Width(NameOf(m)) + 3 + |Spell(m.v)|
    ensures m.v.String? ==> |Spell(m.v)| >= Width(TextOf(m)) + 2
  {
    Opened(m);
    hide SpellText, EscBody, Decoded, Paired, Quoted;
    TextIsNoShorter(m.key.t);
    if m.v.String? {
      TextIsNoShorter(m.v.t);
    }
  }

  /** Ten bytes of disk pay for three of wire: six bytes and two strings for an entry of twenty and two strings. */
  lemma {:induction false} ReasonsWeigh(ms: Members, acc: map<Bytes, Bytes>, w: nat) returns (more: nat)
    requires GoodMembers(ms, true) && PairedMembers(ms, true) && Reasons(ms) && Bounded(acc, w)
    ensures Bounded(TakeReasons(ms, acc), w + more)
    ensures 3 * more <= 10 * |SpellMembers(ms, true)| + 10
    decreases ms
  {
    hide Bounded, NameOf, TextOf, Width, SpellMember, PairedMember, GoodMember, Spell;
    Split(ms);
    var k, v := NameOf(ms.m), TextOf(ms.m);
    MemberIsAtLeast(ms.m);
    BoundedNext(acc, w, k, v);
    if ms.More? {
      var rest := ReasonsWeigh(ms.rest, acc[k := v], w + EntryWeight(k, v));
      more := EntryWeight(k, v) + rest;
    } else {
      more := EntryWeight(k, v);
    }
  }

  lemma HeadIn(ks: seq<Bytes>)
    ensures |ks| > 0 ==> ks[0] in ks
  {
  }

  lemma NoReasons()
    ensures Bounded(map[], 0) && MapWeight(map[]) == 0
  {
    var none: map<Bytes, Bytes> := map[];
    forall ks: seq<Bytes> | Keys.Distinct(ks) && (forall k :: k in ks ==> k in none)
      ensures Weigh(ks, none) == 0
    {
      HeadIn(ks);
    }
    BoundedWeight(none, 0);
  }

  /** A setting adds to the mass at most ten thirds of what it takes on disk. */
  lemma SettingWeighs(m: Member, v: Layers.Values)
    requires GoodMember(m, true) && PairedMember(m, true) && Setting(m)
    ensures 3 * Mass(TakeSetting(m, v)) <= 3 * Mass(v) + 10 * |SpellMember(m, true)|
  {
    hide NameOf, TextOf, Width, SpellMember, PairedMember, GoodMember, Mass, Spell, KeyNamed, TakeReasons, Reasons;
    Opened(m);
    MemberIsAtLeast(m);
    if KeyNamed(NameOf(m)).value != Layers.Off {
      TextWeighs(v, KeyNamed(NameOf(m)).value, TextOf(m));
    } else if m.v.Empty? {
      OffWeighs(v, map[]);
      NoReasons();
    } else {
      ObjectWeighs(m.v.ms);
      OffWeighs(v, TakeReasons(m.v.ms, map[]));
      FullIs(m.v);
    }
  }

  /** Replacing a text, or the map, adds at most what comes in. */
  lemma TextWeighs(v: Layers.Values, key: Layers.Key, text: Bytes)
    requires key != Layers.Off
    ensures Mass(Layers.PutText(v, key, text)) <= Mass(v) + Width(text)
  {
    hide Width, MapWeight;
  }

  lemma OffWeighs(v: Layers.Values, off: map<Bytes, Bytes>)
    ensures Mass(v.(off := off)) <= Mass(v) + MapWeight(off)
  {
    hide Width, MapWeight;
  }

  lemma ObjectWeighs(ms: Members)
    requires GoodMembers(ms, true) && PairedMembers(ms, true) && Reasons(ms)
    ensures 3 * MapWeight(TakeReasons(ms, map[])) <= 10 * |SpellMembers(ms, true)| + 10
  {
    hide Bounded, MapWeight, TakeReasons, GoodMembers, PairedMembers, Reasons, SpellMembers;
    NoReasons();
    var more := ReasonsWeigh(ms, map[], 0);
    BoundedWeight(TakeReasons(ms, map[]), more);
  }

  lemma FullIs(j: Json)
    requires WellFormed(j) && j.Full?
    ensures |Spell(j)| == |SpellMembers(j.ms, j.isObj)| + 2
  {
  }

  lemma {:induction false} SettingsWeigh(ms: Members, seen: set<Layers.Key>, v: Layers.Values)
    requires GoodMembers(ms, true) && PairedMembers(ms, true) && Settings(ms, seen)
    ensures 3 * Mass(TakeSettings(ms, seen, v)) <= 3 * Mass(v) + 10 * |SpellMembers(ms, true)|
    decreases ms
  {
    hide SpellMember, PairedMember, GoodMember, Mass, NameOf, KeyNamed, TakeSetting;
    Split(ms);
    SettingWeighs(ms.m, v);
    if ms.More? {
      SettingsWeigh(ms.rest, seen + {KeyNamed(NameOf(ms.m)).value}, TakeSetting(ms.m, v));
    }
  }

  /** The whole record: three times what its values weigh is at most ten times its length. */
  lemma RecordWeighs(j: Json)
    requires UserRecord(j)
    ensures 3 * Mass(ValuesOf(j)) <= 10 * |Spell(j)|
  {
    hide MapWeight, SpellMembers, Settings;
    NoReasons();
    if j.Full? {
      SettingsWeigh(j.ms, {}, Layers.NOTHING);
    }
  }

  // -------------------------------------------------------------- the wire

  lemma {:induction false} WidthBound(s: Bytes)
    ensures Width(s) <= 6 * |s| && |Esc(s)| == Width(s) + 2
  {
    if |s| > 0 {
      WidthBound(s[1..]);
    }
  }

  lemma LabelSize(key: Bytes, depth: nat)
    ensures |Label(key, depth)| == 2 * depth + 7 + Width(key)
  {
  }

  lemma {:induction false} MapRestSize(ks: seq<Bytes>, m: map<Bytes, Bytes>, i: nat, depth: nat)
    requires i <= |ks| && (forall k :: k in ks ==> k in m) && depth <= 5
    ensures |MapRest(ks, m, i, depth)| <= Weigh(ks[i..], m) + 2 * depth + 2
    decreases |ks| - i
  {
    hide Label, EscBody, Pad;
    if i < |ks| {
      MapRestSize(ks, m, i + 1, depth);
      LabelSize(ks[i], depth);
      assert ks[i..][1..] == ks[i + 1..];
    } else {
      PadSize(depth);
    }
  }

  lemma PadSize(depth: nat)
    ensures |Pad(depth)| == 2 * depth
  {
  }

  lemma MapSize(m: map<Bytes, Bytes>, depth: nat)
    requires depth <= 5
    ensures |EncMap(m, depth)| <= MapWeight(m) + 2 * depth + 3
  {
    hide MapRest, Weigh;
    var ks := Keys.Sorted(m.Keys);
    assert forall k :: k in ks ==> k in Keys.Elements(ks);
    MapRestSize(ks, m, 0, depth);
    assert ks[0..] == ks;
  }

  /** What the values of the fields from the i-th on take. */
  ghost function Sum(fields: seq<Field>, vals: seq<Option<Value>>, i: nat, depth: nat): nat
    requires i <= |fields| && Typed(KRec(fields), VRec(vals)) && Known(KRec(fields), VRec(vals))
    decreases |fields| - i
  {
    if i == |fields| then 0
    else (if vals[i].Some? then |Enc(fields[i].kind, vals[i].value, depth + 1)| else 0) + Sum(fields, vals, i + 1, depth)
  }

  predicate ShortNames(fields: seq<Field>) {
    forall i :: 0 <= i < |fields| ==> |fields[i].key| <= 20
  }

  lemma {:induction false} RestSize(fields: seq<Field>, vals: seq<Option<Value>>, i: nat, depth: nat)
    requires i <= |fields| && Typed(KRec(fields), VRec(vals)) && Known(KRec(fields), VRec(vals)) && ShortNames(fields) && depth <= 5
    ensures |EncRest(fields, vals, i, depth)| <= Sum(fields, vals, i, depth) + 138 * (|fields| - i) + 12
    decreases |fields| - i
  {
    hide Enc, Label;
    if i < |fields| {
      RestSize(fields, vals, i + 1, depth);
      LabelSize(fields[i].key, depth);
      WidthBound(fields[i].key);
    } else {
      PadSize(depth);
    }
  }

  lemma RecordSize(fields: seq<Field>, vals: seq<Option<Value>>, depth: nat)
    requires Typed(KRec(fields), VRec(vals)) && Known(KRec(fields), VRec(vals)) && ShortNames(fields) && depth <= 5
    ensures |Enc(KRec(fields), VRec(vals), depth)| <= Sum(fields, vals, 0, depth) + 138 * |fields| + 13
  {
    hide EncRest, Sum;
    RestSize(fields, vals, 0, depth);
  }

  // ---------------------------------------------------- the records sent

  function SettingsOf(v: Layers.Values): Value {
    VRec([Some(VStr(v.nasStore)), Some(VStr(v.store)), Some(VStr(v.logSink)), Some(VStr(v.logService)), Some(VMap(v.off))])
  }

  function SnapshotOf(v: Layers.Values, revision: Bytes): Value {
    VRec([Some(SettingsOf(v)), Some(VStr(revision))])
  }

  function ResultOf(tag: nat, v: Layers.Values, revision: Bytes): Value {
    VRec([Some(VEnum(tag)), Some(SnapshotOf(v, revision))])
  }

  /** A record with all its fields there, each of its kind. */
  predicate Filled(fields: seq<Field>, vals: seq<Option<Value>>) {
    |vals| == |fields| && forall i :: 0 <= i < |fields| ==> vals[i].Some? && Typed(fields[i].kind, vals[i].value) && Known(fields[i].kind, vals[i].value)
  }

  lemma FilledIsTyped(fields: seq<Field>, vals: seq<Option<Value>>)
    requires Filled(fields, vals)
    ensures Typed(KRec(fields), VRec(vals)) && Known(KRec(fields), VRec(vals))
  {
  }

  lemma SettingsFilled(v: Layers.Values)
    ensures Filled(Schemas.USER_SETTINGS.fields, SettingsOf(v).vals) && ShortNames(Schemas.USER_SETTINGS.fields)
  {
    var fields, vals := Schemas.USER_SETTINGS.fields, SettingsOf(v).vals;
    forall i | 0 <= i < 5
      ensures Typed(fields[i].kind, vals[i].value) && Known(fields[i].kind, vals[i].value) && |fields[i].key| <= 20
    {
      assert i == 0 || i == 1 || i == 2 || i == 3 || i == 4;
    }
  }

  lemma SumStep(fields: seq<Field>, vals: seq<Option<Value>>, i: nat, depth: nat)
    requires Filled(fields, vals) && Typed(KRec(fields), VRec(vals)) && Known(KRec(fields), VRec(vals)) && i < |fields|
    ensures Sum(fields, vals, i, depth) == |Enc(fields[i].kind, vals[i].value, depth + 1)| + Sum(fields, vals, i + 1, depth)
    ensures Sum(fields, vals, |fields|, depth) == 0
  {
    hide Enc;
  }

  lemma TextSize(s: Bytes, depth: nat)
    ensures |Enc(KStr, VStr(s), depth)| == Width(s) + 2
  {
    WidthBound(s);
  }

  /** A record of five fields. */
  lemma Five(fields: seq<Field>, vals: seq<Option<Value>>, depth: nat)
    requires |fields| == 5 && Filled(fields, vals) && ShortNames(fields) && depth <= 5
    ensures Typed(KRec(fields), VRec(vals)) && Known(KRec(fields), VRec(vals))
    ensures |Enc(KRec(fields), VRec(vals), depth)| <=
      |Enc(fields[0].kind, vals[0].value, depth + 1)| + |Enc(fields[1].kind, vals[1].value, depth + 1)|
      + |Enc(fields[2].kind, vals[2].value, depth + 1)| + |Enc(fields[3].kind, vals[3].value, depth + 1)|
      + |Enc(fields[4].kind, vals[4].value, depth + 1)| + 703
  {
    FilledIsTyped(fields, vals);
    RecordSize(fields, vals, depth);
    hide Enc, Sum, Typed, Known, ShortNames;
    SumStep(fields, vals, 4, depth);
    SumStep(fields, vals, 3, depth);
    SumStep(fields, vals, 2, depth);
    SumStep(fields, vals, 1, depth);
    SumStep(fields, vals, 0, depth);
  }

  lemma SettingsSize(v: Layers.Values, depth: nat)
    requires depth <= 4
    ensures Typed(Schemas.USER_SETTINGS, SettingsOf(v)) && Known(Schemas.USER_SETTINGS, SettingsOf(v))
    ensures |Enc(Schemas.USER_SETTINGS, SettingsOf(v), depth)| <= Mass(v) + 730
  {
    hide Enc, Typed, Known, Filled, Sum, MapWeight, Width, ShortNames, Ascii;
    SettingsFilled(v);
    TextSize(v.nasStore, depth + 1);
    TextSize(v.store, depth + 1);
    TextSize(v.logSink, depth + 1);
    TextSize(v.logService, depth + 1);
    OffSize(v.off, depth + 1);
    Five(Schemas.USER_SETTINGS.fields, SettingsOf(v).vals, depth);
  }

  lemma OffSize(m: map<Bytes, Bytes>, depth: nat)
    requires depth <= 5
    ensures |Enc(KMap, VMap(m), depth)| <= MapWeight(m) + 2 * depth + 3
  {
    hide MapWeight, EncMap;
    MapSize(m, depth);
  }

  lemma SnapshotSize(v: Layers.Values, revision: Bytes, depth: nat)
    requires depth <= 3 && |revision| <= 72
    ensures Typed(Schemas.USER_SNAPSHOT, SnapshotOf(v, revision)) && Known(Schemas.USER_SNAPSHOT, SnapshotOf(v, revision))
    ensures |Enc(Schemas.USER_SNAPSHOT, SnapshotOf(v, revision), depth)| <= Mass(v) + 1500
  {
    var fields, vals := Schemas.USER_SNAPSHOT.fields, SnapshotOf(v, revision).vals;
    SettingsSize(v, depth + 1);
    TextSize(revision, depth + 1);
    WidthBound(revision);
    Two(fields, vals, depth);
  }

  /** A record of two fields. */
  lemma Two(fields: seq<Field>, vals: seq<Option<Value>>, depth: nat)
    requires |fields| == |vals| == 2 && vals[0].Some? && vals[1].Some? && depth <= 5
    requires |fields[0].key| <= 20 && |fields[1].key| <= 20
    requires Typed(fields[0].kind, vals[0].value) && Known(fields[0].kind, vals[0].value)
    requires Typed(fields[1].kind, vals[1].value) && Known(fields[1].kind, vals[1].value)
    ensures Typed(KRec(fields), VRec(vals)) && Known(KRec(fields), VRec(vals))
    ensures |Enc(KRec(fields), VRec(vals), depth)| <=
      |Enc(fields[0].kind, vals[0].value, depth + 1)| + |Enc(fields[1].kind, vals[1].value, depth + 1)| + 289
  {
    assert Filled(fields, vals);
    FilledIsTyped(fields, vals);
    RecordSize(fields, vals, depth);
    hide Enc, Sum, Typed, Known;
    SumStep(fields, vals, 0, depth);
    SumStep(fields, vals, 1, depth);
  }

  lemma WordSize(tag: nat, depth: nat)
    requires 1 <= tag <= 4
    ensures Typed(Schemas.REPLACE_WORDS, VEnum(tag)) && Known(Schemas.REPLACE_WORDS, VEnum(tag))
    ensures |Enc(Schemas.REPLACE_WORDS, VEnum(tag), depth)| <= 80
  {
    var word := Schemas.REPLACE_WORDS.words[tag - 1];
    WidthBound(word);
    assert |word| <= 12;
  }

  lemma ResultSize(tag: nat, v: Layers.Values, revision: Bytes, depth: nat)
    requires depth <= 2 && |revision| <= 72 && 1 <= tag <= 4
    ensures Typed(Schemas.REPLACE_RESULT, ResultOf(tag, v, revision)) && Known(Schemas.REPLACE_RESULT, ResultOf(tag, v, revision))
    ensures |Enc(Schemas.REPLACE_RESULT, ResultOf(tag, v, revision), depth)| <= Mass(v) + 1900
  {
    hide Enc, Mass, Width;
    WordSize(tag, depth + 1);
    SnapshotSize(v, revision, depth + 1);
    Two(Schemas.REPLACE_RESULT.fields, ResultOf(tag, v, revision).vals, depth);
  }

  /** A reply frame is its payload and at most this much more. */
  lemma ReplySize(c: Rpc.Contract, v: Value)
    requires Typed(c.result, v) && Known(c.result, v) && |c.service| <= 30 && |c.name| <= 30
    ensures var k := Schemas.ResultOf(c.result); Typed(k, Rpc.Wrapped(v)) && Known(k, Rpc.Wrapped(v))
    ensures var p := Enc(Schemas.ResultOf(c.result), Rpc.Wrapped(v), 1); var reply := Rpc.ReplyOf(c.service, c.name, true, p);
      Typed(Schemas.REPLY, reply) && Known(Schemas.REPLY, reply)
      && |Enc(Schemas.REPLY, reply, 0)| <= |Enc(c.result, v, 2)| + 1300
  {
    Rpc.WrappedTyped(c.result, v);
    var p := Enc(Schemas.ResultOf(c.result), Rpc.Wrapped(v), 1);
    Rpc.ReplyTypes(c.service, c.name, true, p);
    OneSize(Schemas.ResultOf(c.result).fields, Rpc.Wrapped(v).vals, 1);
    EnvelopeSize(c.service, c.name, p);
  }

  lemma OneSize(fields: seq<Field>, vals: seq<Option<Value>>, depth: nat)
    requires |fields| == |vals| == 1 && vals[0].Some? && depth <= 5 && |fields[0].key| <= 20
    requires Typed(KRec(fields), VRec(vals)) && Known(KRec(fields), VRec(vals))
    requires Typed(fields[0].kind, vals[0].value) && Known(fields[0].kind, vals[0].value)
    ensures |Enc(KRec(fields), VRec(vals), depth)| <= |Enc(fields[0].kind, vals[0].value, depth + 1)| + 151
  {
    assert Filled(fields, vals);
    RecordSize(fields, vals, depth);
    hide Enc, Sum, Typed, Known;
    SumStep(fields, vals, 0, depth);
  }

  lemma EnvelopeSize(service: Bytes, name: Bytes, payload: Bytes)
    requires |service| <= 30 && |name| <= 30
    ensures var reply := Rpc.ReplyOf(service, name, true, payload);
      Typed(Schemas.REPLY, reply) && Known(Schemas.REPLY, reply) && |Enc(Schemas.REPLY, reply, 0)| <= |payload| + 1149
  {
    hide Enc, Typed, Known, Filled, Sum, Width, ShortNames, Ascii;
    EnvelopeFilled(service, name, payload);
    TextSize(service, 1);
    TextSize(name, 1);
    WidthBound(service);
    WidthBound(name);
    OneDigit();
    PayloadSize(payload);
    Five(Schemas.REPLY_FIELDS, Rpc.ReplyOf(service, name, true, payload).vals, 0);
  }

  lemma OneDigit()
    ensures |Enc(Schemas.INT32, VInt(1), 1)| == 1 && |Enc(KBool, VBool(true), 1)| == 4
  {
  }

  lemma PayloadSize(payload: Bytes)
    ensures |Enc(KRaw, VRaw(payload), 1)| == |payload|
  {
  }

  lemma EnvelopeFilled(service: Bytes, name: Bytes, payload: Bytes)
    ensures Filled(Schemas.REPLY_FIELDS, Rpc.ReplyOf(service, name, true, payload).vals) && ShortNames(Schemas.REPLY_FIELDS)
  {
    var fields, vals := Schemas.REPLY_FIELDS, Rpc.ReplyOf(service, name, true, payload).vals;
    forall i | 0 <= i < 5
      ensures Typed(fields[i].kind, vals[i].value) && Known(fields[i].kind, vals[i].value) && |fields[i].key| <= 20
    {
      assert i == 0 || i == 1 || i == 2 || i == 3 || i == 4;
    }
  }

  /**
   * The bound. Whatever user record of at most 256 KiB is accepted, the frame that answers ReadUser
   * with it, and the frame that answers ReplaceUser with it, take at most 1 MiB.
   */
  lemma FrameFits(before: Bytes, j: Json, after: Bytes, revision: Bytes, tag: nat)
    requires UserRecord(j) && |before + Spell(j) + after| <= MAX_FILE && |revision| <= 72 && 1 <= tag <= 4
    ensures var v := SnapshotOf(ValuesOf(j), revision);
      Typed(Schemas.USER_SNAPSHOT, v) && Known(Schemas.USER_SNAPSHOT, v) && |Reply(Rpc.READ_USER, v)| <= MAX_FRAME
    ensures var v := ResultOf(tag, ValuesOf(j), revision);
      Typed(Schemas.REPLACE_RESULT, v) && Known(Schemas.REPLACE_RESULT, v) && |Reply(Rpc.REPLACE_USER, v)| <= MAX_FRAME
  {
    hide Enc, Typed, Known, Mass, Spell, ValuesOf, UserRecord, Ascii;
    RecordWeighs(j);
    SnapshotSize(ValuesOf(j), revision, 2);
    ResultSize(tag, ValuesOf(j), revision, 2);
    AsciiSizes();
    ReplySize(Rpc.READ_USER, SnapshotOf(ValuesOf(j), revision));
    ReplySize(Rpc.REPLACE_USER, ResultOf(tag, ValuesOf(j), revision));
  }

  lemma AsciiSizes()
    ensures |Rpc.READ_USER.service| <= 30 && |Rpc.READ_USER.name| <= 30
    ensures |Rpc.REPLACE_USER.service| <= 30 && |Rpc.REPLACE_USER.name| <= 30
  {
  }

  /** The frame that answers a call with this value. */
  ghost function Reply(c: Rpc.Contract, v: Value): Bytes
    requires Typed(c.result, v) && Known(c.result, v)
  {
    Rpc.WrappedTyped(c.result, v);
    var p := Enc(Schemas.ResultOf(c.result), Rpc.Wrapped(v), 1);
    Rpc.ReplyTypes(c.service, c.name, true, p);
    Enc(Schemas.REPLY, Rpc.ReplyOf(c.service, c.name, true, p), 0)
  }
}
