/** Package-level settings: every package on the way from a class up to the root package may
    hold a PackageSettings class whose fields are settings; a nearer package's fields override
    those of the packages above it. The reflection behind it (loading the class, listing and
    reading its fields) is given as a table from package name to the fields read there. */
module PackageSettings {
  import opened Wrappers
  import Strings

  /** PackageLevelSettings.PACKAGE_SETTINGS: the simple name of the settings class. */
  const PackageSettingsClass: string := "PackageSettings"

  /** PackageLevelSettings.getNextLevel: the name without its last dotted segment, or null when
      there is no dot. */
  function NextLevel(name: string): (r: Option<string>)
    ensures r.None? <==> '.' !in name
    ensures r.Some? ==>
              && |r.value| < |name|
              && name == r.value + "." + name[|r.value| + 1..]
              && '.' !in name[|r.value| + 1..]
  {
    var last := Strings.LastIndexOf(name, '.');
    if last < 0 then None
    else
      assert name == name[..last] + "." + name[last + 1..];
      Some(name[..last])
  }

  /** The Settings record: a field's value (null as None) and the class it was declared in. */
  datatype Setting<V> = Setting(value: Option<V>, location: string)

  /** What reading one field gave: getFieldValue returns null when Field.get throws. */
  datatype FieldRead<V> = Unreadable | Read(value: Option<V>)

  datatype FieldEntry<V> = FieldEntry(name: string, read: FieldRead<V>)

  /** The declared fields of each package's settings class, in declaration order; a package is
      absent when its settings class cannot be loaded or instantiated. */
  type FieldTable<V> = map<string, seq<FieldEntry<V>>>

  /** Map<String, Settings>, a null entry being None. */
  type SettingsMap<V> = map<string, Option<Setting<V>>>

  /** The entry getFieldValue yields for a field of a package's settings class. */
  function SettingOf<V>(pkg: string, read: FieldRead<V>): Option<Setting<V>> {
    match read
    case Unreadable => None
    case Read(v) => Some(Setting(v, pkg + "." + PackageSettingsClass))
  }

  /** settings.put(field.getName(), getFieldValue(...)) for each field in order. */
  function Overlay<V>(base: SettingsMap<V>, pkg: string, fields: seq<FieldEntry<V>>): SettingsMap<V>
    decreases |fields|
  {
    if fields == [] then base
    else
      var last := fields[|fields| - 1];
      Overlay(base, pkg, fields[..|fields| - 1])[last.name := SettingOf(pkg, last.read)]
  }

  /** The settings a package declares itself. */
  function Own<V>(table: FieldTable<V>, pkg: string): SettingsMap<V> {
    if pkg in table then Overlay(map[], pkg, table[pkg]) else map[]
  }

  /** Putting fields over a base is merging the fields' own map over it: a field replaces the
      base entry of the same name, and other base entries stay. */
  lemma {:induction false} OverlayIsMerge<V>(base: SettingsMap<V>, pkg: string, fields: seq<FieldEntry<V>>)
    ensures Overlay(base, pkg, fields) == base + Overlay(map[], pkg, fields)
    decreases |fields|
  {
    if fields != [] {
      var init := fields[..|fields| - 1];
      OverlayIsMerge(base, pkg, init);
    }
  }

  /** The names a package's settings class declares are exactly its keys, and each holds what
      its last declaration read. */
  lemma {:induction false} OverlayKeys<V>(pkg: string, fields: seq<FieldEntry<V>>)
    ensures Overlay(map[], pkg, fields).Keys == set f | f in fields :: f.name
    decreases |fields|
  {
    if fields != [] {
      var init := fields[..|fields| - 1];
      OverlayKeys(pkg, init);
      assert fields == init + [fields[|fields| - 1]];
    }
  }

  lemma {:induction false} OverlayLookup<V>(pkg: string, fields: seq<FieldEntry<V>>, i: nat)
    requires i < |fields|
    requires forall j :: i < j < |fields| ==> fields[j].name != fields[i].name
    ensures fields[i].name in Overlay(map[], pkg, fields)
    ensures Overlay(map[], pkg, fields)[fields[i].name] == SettingOf(pkg, fields[i].read)
    decreases |fields|
  {
    if i < |fields| - 1 {
      OverlayLookup(pkg, fields[..|fields| - 1], i);
    }
  }

  /** getSettingsFor(packageName, done): nothing for null or for a package already done;
      otherwise the parent's settings (computed first, with the same done set), overlaid with
      the package's own fields, and the package is then done. */
  function SettingsFor<V>(table: FieldTable<V>, pkg: Option<string>, done: set<string>): (SettingsMap<V>, set<string>)
    decreases if pkg.Some? then |pkg.value| + 1 else 0
  {
    if pkg.None? || pkg.value in done then (map[], done)
    else
      var (inherited, doneAbove) := SettingsFor(table, NextLevel(pkg.value), done);
      var settings := if pkg.value in table then Overlay(inherited, pkg.value, table[pkg.value]) else inherited;
      (settings, doneAbove + {pkg.value})
  }

  /** Merging with an empty map, on either side, changes nothing. */
  lemma MergeEmpty<K, W>(m: map<K, W>)
    ensures m + map[] == m && map[] + m == m
  {
  }

  /** A package and every package above it. */
  function Ancestors(pkg: string): (r: set<string>)
    ensures pkg in r
    decreases |pkg|
  {
    {pkg} + (if NextLevel(pkg).Some? then Ancestors(NextLevel(pkg).value) else {})
  }

  /** A done set that holds each package with all the packages above it. */
  predicate Closed(done: set<string>) {
    forall p :: p in done ==> Ancestors(p) <= done
  }

  /** The settings a package sees when none of its ancestors is done yet: the parent's, with
      its own merged over them. */
  function Chain<V>(table: FieldTable<V>, pkg: string): SettingsMap<V>
    decreases |pkg|
  {
    (if NextLevel(pkg).Some? then Chain(table, NextLevel(pkg).value) else map[]) + Own(table, pkg)
  }

  /** The settings of a package nothing above which is done are its chain, and the done set
      gains exactly the package and its ancestors. */
  lemma {:induction false} SettingsForFresh<V>(table: FieldTable<V>, pkg: string, done: set<string>)
    requires Ancestors(pkg) !! done
    ensures SettingsFor(table, Some(pkg), done) == (Chain(table, pkg), done + Ancestors(pkg))
    decreases |pkg|
  {
    var parent := NextLevel(pkg);
    var (inherited, doneAbove) := SettingsFor(table, parent, done);
    if parent.Some? {
      SettingsForFresh(table, parent.value, done);
      assert inherited == Chain(table, parent.value);
      assert doneAbove + {pkg} == done + Ancestors(pkg);
    } else {
      assert (inherited, doneAbove) == (map[], done);
      assert Ancestors(pkg) == {pkg};
    }
    assert pkg !in done;
    if pkg in table {
      OverlayIsMerge(inherited, pkg, table[pkg]);
      assert SettingsFor(table, Some(pkg), done).0 == inherited + Own(table, pkg);
    } else {
      assert Own(table, pkg) == map[];
      MergeEmpty(inherited);
      assert SettingsFor(table, Some(pkg), done).0 == inherited + Own(table, pkg);
    }
  }

  /** Started from a done set that is closed, getSettingsFor adds exactly the package and its
      ancestors, and the done set stays closed: no settings class is read twice. */
  lemma {:induction false} SettingsForDone<V>(table: FieldTable<V>, pkg: Option<string>, done: set<string>)
    requires Closed(done)
    ensures SettingsFor(table, pkg, done).1 == done + (if pkg.Some? then Ancestors(pkg.value) else {})
    ensures Closed(SettingsFor(table, pkg, done).1)
    decreases if pkg.Some? then |pkg.value| + 1 else 0
  {
    if pkg.None? {
      assert done + {} == done;
    } else if pkg.value in done {
      assert Ancestors(pkg.value) <= done;
      assert done + Ancestors(pkg.value) == done;
    } else {
      var p := pkg.value;
      var parent := NextLevel(p);
      SettingsForDone(table, parent, done);
      var above := SettingsFor(table, parent, done).1;
      assert SettingsFor(table, pkg, done).1 == above + {p};
      assert Ancestors(p) == {p} + (if parent.Some? then Ancestors(parent.value) else {});
      ClosedGrow(above, p);
    }
  }

  /** Adding a package whose ancestors are all done keeps a done set closed. */
  lemma ClosedGrow(above: set<string>, p: string)
    requires Closed(above)
    requires NextLevel(p).Some? ==> Ancestors(NextLevel(p).value) <= above
    ensures Closed(above + {p})
  {
    var after := above + {p};
    forall q | q in after ensures Ancestors(q) <= after {
      if q != p {
        assert Ancestors(q) <= above;
      }
    }
  }

  /** A package's own settings override the ones it inherits, key by key. */
  lemma OwnSettingsOverride<V>(table: FieldTable<V>, pkg: string, done: set<string>)
    requires pkg !in done
    ensures var (inherited, _) := SettingsFor(table, NextLevel(pkg), done);
            SettingsFor(table, Some(pkg), done).0 == inherited + Own(table, pkg)
  {
    if pkg in table {
      var (inherited, _) := SettingsFor(table, NextLevel(pkg), done);
      OverlayIsMerge(inherited, pkg, table[pkg]);
    }
  }

  /** getForStackTrace: each frame's class names a package; their settings are merged in stack
      order with one done set shared by all frames. */
  function ForStackTrace<V>(table: FieldTable<V>, trace: seq<string>): (SettingsMap<V>, set<string>)
    decreases |trace|
  {
    if trace == [] then (map[], {})
    else
      var (settings, done) := ForStackTrace(table, trace[..|trace| - 1]);
      var (frame, doneAfter) := SettingsFor(table, NextLevel(trace[|trace| - 1]), done);
      (settings + frame, doneAfter)
  }

  /** The done set of a stack trace is closed and holds every frame's package and ancestors. */
  lemma {:induction false} ForStackTraceDone<V>(table: FieldTable<V>, trace: seq<string>)
    ensures Closed(ForStackTrace(table, trace).1)
    ensures forall i :: 0 <= i < |trace| && NextLevel(trace[i]).Some? ==>
              Ancestors(NextLevel(trace[i]).value) <= ForStackTrace(table, trace).1
    decreases |trace|
  {
    if trace != [] {
      var init := trace[..|trace| - 1];
      ForStackTraceDone(table, init);
      var (_, done) := ForStackTrace(table, init);
      SettingsForDone(table, NextLevel(trace[|trace| - 1]), done);
      forall i | 0 <= i < |trace| && NextLevel(trace[i]).Some?
        ensures Ancestors(NextLevel(trace[i]).value) <= ForStackTrace(table, trace).1
      {
        if i < |trace| - 1 {
          assert trace[i] == init[i];
        }
      }
    }
  }

  /** Stack order: an entry of the last frame replaces what earlier frames gave for its key,
      and a frame whose package an earlier frame already reached adds nothing. */
  lemma LaterFramesWin<V>(table: FieldTable<V>, trace: seq<string>, className: string)
    ensures var (earlier, done) := ForStackTrace(table, trace);
            var frame := SettingsFor(table, NextLevel(className), done).0;
            var merged := ForStackTrace(table, trace + [className]).0;
            && (forall k :: k in frame ==> k in merged && merged[k] == frame[k])
            && (forall k :: k in earlier && k !in frame ==> k in merged && merged[k] == earlier[k])
            && (NextLevel(className).Some? && NextLevel(className).value in done ==> merged == earlier)
  {
    var t := trace + [className];
    assert t[..|t| - 1] == trace && t[|t| - 1] == className;
    var (earlier, done) := ForStackTrace(table, trace);
    var (frame, doneAfter) := SettingsFor(table, NextLevel(className), done);
    assert ForStackTrace(table, t) == (earlier + frame, doneAfter);
    if NextLevel(className).Some? && NextLevel(className).value in done {
      assert frame == map[];
      MergeEmpty(earlier);
    }
  }

  /** Every frame whose package an earlier frame reached, directly or as an ancestor, adds
      nothing: each settings class is read once per stack trace. */
  lemma RepeatedPackageAddsNothing<V>(table: FieldTable<V>, trace: seq<string>, i: nat, className: string)
    requires i < |trace| && NextLevel(trace[i]).Some? && NextLevel(className).Some?
    requires NextLevel(className).value in Ancestors(NextLevel(trace[i]).value)
    ensures ForStackTrace(table, trace + [className]) == ForStackTrace(table, trace)
  {
    ForStackTraceDone(table, trace);
    LaterFramesWin(table, trace, className);
    assert (trace + [className])[..|trace|] == trace;
  }

  /** The private getSettingsFor, recursing to the parent package first and then putting each
      declared field in turn. */
  method GetSettingsFor<V>(table: FieldTable<V>, pkg: Option<string>, done: set<string>)
    returns (settings: SettingsMap<V>, doneAfter: set<string>)
    ensures (settings, doneAfter) == SettingsFor(table, pkg, done)
    decreases if pkg.Some? then |pkg.value| + 1 else 0
  {
    if pkg.None? || pkg.value in done {
      return map[], done;
    }
    var inherited, doneAbove := GetSettingsFor(table, NextLevel(pkg.value), done);
    settings := inherited;
    if pkg.value in table {
      settings := PutFields(inherited, pkg.value, table[pkg.value]);
    }
    doneAfter := doneAbove + {pkg.value};
  }

  /** The field loop of getSettingsFor: each declared field, in order, put over the inherited
      settings. */
  method PutFields<V>(inherited: SettingsMap<V>, pkg: string, fields: seq<FieldEntry<V>>)
    returns (settings: SettingsMap<V>)
    ensures settings == Overlay(inherited, pkg, fields)
  {
    settings := inherited;
    for i := 0 to |fields|
      invariant settings == Overlay(inherited, pkg, fields[..i])
    {
      assert fields[..i + 1][..i] == fields[..i];
      settings := settings[fields[i].name := SettingOf(pkg, fields[i].read)];
    }
    assert fields[..|fields|] == fields;
  }

  /** getForStackTrace: one pass over the frames, later frames' entries replacing earlier ones. */
  method GetForStackTrace<V>(table: FieldTable<V>, trace: seq<string>) returns (settings: SettingsMap<V>)
    ensures settings == ForStackTrace(table, trace).0
  {
    settings := map[];
    var done: set<string> := {};
    for i := 0 to |trace|
      invariant (settings, done) == ForStackTrace(table, trace[..i])
    {
      assert trace[..i + 1][..i] == trace[..i];
      var frame, doneAfter := GetSettingsFor(table, NextLevel(trace[i]), done);
      settings := settings + frame;
      done := doneAfter;
    }
    assert trace[..|trace|] == trace;
  }

  /** A setting looked up by name and expected type (Class.isInstance on a non-null value). */
  datatype Field<!V> = Field(name: string, isInstance: V -> bool) {

    /** Field.isPresent: an entry, not null, whose value is not null and of the field's type. */
    predicate IsPresent(settings: SettingsMap<V>) {
      && name in settings
      && settings[name].Some?
      && settings[name].value.value.Some?
      && isInstance(settings[name].value.value.value)
    }

    /** Field.getValue: the stored value when present, the default otherwise. The default is
        returned for a missing key, an unreadable entry, a null value and a value of another
        type; any other result is a value of the field's type stored under its name. */
    function GetValue(settings: SettingsMap<V>, default: V): (r: V)
      ensures IsPresent(settings) ==> r == settings[name].value.value.value
      ensures !IsPresent(settings) ==> r == default
      ensures name !in settings || settings[name].None? || settings[name].value.value.None? ==> r == default
      ensures name in settings && settings[name].Some? && settings[name].value.value.Some? ==>
                var v := settings[name].value.value.value;
                r == if isInstance(v) then v else default
      ensures r == default || (isInstance(r) && name in settings && settings[name].Some? && settings[name].value.value == Some(r))
    {
      if IsPresent(settings) then settings[name].value.value.value else default
    }
  }

  /** PackageLevelSettings.getValueFor(field, defaultSupplier) for the given stack trace. */
  function ValueFor<V>(field: Field<V>, table: FieldTable<V>, trace: seq<string>, default: V): V {
    field.GetValue(ForStackTrace(table, trace).0, default)
  }

  /** The settings a call from one class sees: the chain of its package. */
  lemma SingleFrame<V>(table: FieldTable<V>, className: string)
    requires NextLevel(className).Some?
    ensures ForStackTrace(table, [className]).0 == Chain(table, NextLevel(className).value)
  {
    var pkg := NextLevel(className).value;
    assert [className][..0] == [] && [className][0] == className;
    var frame := SettingsFor(table, Some(pkg), {});
    assert ForStackTrace(table, [className]) == (map[] + frame.0, frame.1);
    SettingsForFresh(table, pkg, {});
    MergeEmpty(Chain(table, pkg));
  }

  /** With the call made from a class of package pkg, a value of the field's type that pkg's
      own settings class declares last under the field's name is the value found. */
  lemma NearestPackageWins<V>(field: Field<V>, table: FieldTable<V>, className: string, default: V, i: nat, v: V)
    requires NextLevel(className).Some?
    requires var pkg := NextLevel(className).value;
             && pkg in table && i < |table[pkg]|
             && table[pkg][i] == FieldEntry(field.name, Read(Some(v)))
             && (forall j :: i < j < |table[pkg]| ==> table[pkg][j].name != field.name)
    requires field.isInstance(v)
    ensures ValueFor(field, table, [className], default) == v
  {
    var pkg := NextLevel(className).value;
    SingleFrame(table, className);
    OverlayLookup(pkg, table[pkg], i);
    var own := Own(table, pkg);
    assert field.name in own && own[field.name] == Some(Setting(Some(v), pkg + "." + PackageSettingsClass));
    var chain := Chain(table, pkg);
    assert chain[field.name] == own[field.name];
    assert field.IsPresent(chain);
  }

  /** When no package from the calling class's up to the root declares the field's name, the
      default is used. */
  lemma UndeclaredUsesDefault<V>(field: Field<V>, table: FieldTable<V>, className: string, default: V)
    requires NextLevel(className).Some?
    requires forall p :: p in Ancestors(NextLevel(className).value) && p in table ==>
               forall f :: f in table[p] ==> f.name != field.name
    ensures ValueFor(field, table, [className], default) == default
  {
    var pkg := NextLevel(className).value;
    SingleFrame(table, className);
    ChainKeys(table, pkg, field.name);
    assert !field.IsPresent(Chain(table, pkg));
  }

  lemma {:induction false} ChainKeys<V>(table: FieldTable<V>, pkg: string, name: string)
    requires forall p :: p in Ancestors(pkg) && p in table ==> forall f :: f in table[p] ==> f.name != name
    ensures name !in Chain(table, pkg)
    decreases |pkg|
  {
    if pkg in table {
      OverlayKeys(pkg, table[pkg]);
    }
    if NextLevel(pkg).Some? {
      ChainKeys(table, NextLevel(pkg).value, name);
    }
  }
}
