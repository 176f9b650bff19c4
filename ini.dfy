/**
  The classes `IniSection` and `IniFile`. `LoadConfigLines` walks the lines with a local
  dictionary of sections, a target list and a reference to the `Default` section, exactly
  as the original does, and is proved to leave behind the document `ConfigModel.Load`
  describes. The two queries are proved to answer from that document.
 */
module Ini {
  import opened Wrappers
  import opened Text
  import opened LineScanner
  import opened ConfigModel

  /** One section: a dictionary from key to value text. */
  class IniSection {
    var storage: map<string, string>

    constructor()
      ensures storage == map[]
    {
      storage := map[];
    }

    /** `IsEmpty`: the section holds no key at all. */
    function IsEmpty(): (r: bool)
      reads this
      ensures r <==> forall key :: key !in storage
    {
      |storage| == 0
    }

    /** `Set`: the key now maps to `value`; every other key keeps its value. */
    method Set(key: string, value: string)
      modifies this
      ensures storage == old(storage)[key := value]
    {
      storage := storage[key := value];
    }

    /** `TryGetValue`: the value stored under `key`, or nothing when the key is absent. */
    method TryGetValue(key: string) returns (r: Option<string>)
      ensures r.Some? <==> key in storage
      ensures r.Some? ==> r.value == storage[key]
    {
      if key in storage {
        r := Some(storage[key]);
      } else {
        r := None;
      }
    }
  }

  /** The way the local state of `LoadConfigLines` mirrors a builder: `objs[id]` is the
      section object with id `id` (all distinct), the dictionary maps each name to the
      object of its id, `defaultSection` is the object of the `Default` id (or null), and
      the target list holds the objects of the target ids. */
  ghost predicate Mirrors(b: Builder, objs: seq<IniSection>, sects: map<string, IniSection>,
                          defaultSection: IniSection?, newSections: seq<IniSection>)
  {
    && Valid(b)
    && Targets(b, objs, defaultSection, newSections)
    && sects == Registered(b.index, objs)
  }

  /** The object of each registered name. */
  ghost function Registered(index: map<string, nat>, objs: seq<IniSection>): map<string, IniSection>
  {
    map n | n in index && index[n] < |objs| :: objs[index[n]]
  }

  /** The part of `Mirrors` an assignment needs: distinct objects, the `Default` object and
      the target objects. */
  ghost predicate Targets(b: Builder, objs: seq<IniSection>, defaultSection: IniSection?, newSections: seq<IniSection>)
  {
    && |objs| == |b.stores|
    && (forall j :: 0 <= j < |objs| ==> objs[j] !in objs[..j])
    && (b.defaultId.Some? ==> b.defaultId.value < |objs|)
    && defaultSection == (if b.defaultId.Some? then objs[b.defaultId.value] else null)
    && |newSections| == |b.target|
    && (forall k :: 0 <= k < |newSections| ==> b.target[k] < |objs| && newSections[k] == objs[b.target[k]])
  }

  /** Objects at different positions of `objs` are different objects. */
  lemma Distinct(objs: seq<IniSection>, j: int, k: int)
    requires forall i :: 0 <= i < |objs| ==> objs[i] !in objs[..i]
    requires 0 <= j < |objs| && 0 <= k < |objs| && j != k
    ensures objs[j] != objs[k]
  {
    if j < k {
      assert objs[..k][j] == objs[j];
    } else {
      assert objs[..j][k] == objs[k];
    }
  }

  /** `objs'` starts with `objs`. */
  ghost predicate Extends(objs: seq<IniSection>, objs': seq<IniSection>)
  {
    |objs| <= |objs'| && forall j :: 0 <= j < |objs| ==> objs'[j] == objs[j]
  }

  /** Each section object holds the store of its id. */
  ghost predicate Holds(objs: seq<IniSection>, stores: seq<Store>)
    reads objs
  {
    |objs| == |stores| && forall j :: 0 <= j < |objs| ==> objs[j].storage == stores[j]
  }

  /** A new, empty section object appended to the objects holds a new, empty store. */
  lemma HoldsAppend(objs: seq<IniSection>, stores: seq<Store>, section: IniSection)
    requires Holds(objs, stores) && section.storage == map[]
    ensures Holds(objs + [section], stores + [map[]])
  {
  }

  /** A name seen before: its section joins the target list, nothing else changes. */
  lemma OpenSeenMirrors(b: Builder, objs: seq<IniSection>, sects: map<string, IniSection>,
                        defaultSection: IniSection?, newSections: seq<IniSection>, name: string)
    requires Mirrors(b, objs, sects, defaultSection, newSections) && name in sects
    ensures Mirrors(OpenName(b, name), objs, sects, defaultSection, newSections + [sects[name]])
  {
  }

  /** An unseen name: a new object, distinct from all the others, becomes its section, the
      `Default` one when it is so named, and joins the target list. */
  lemma OpenNewMirrors(b: Builder, objs: seq<IniSection>, sects: map<string, IniSection>,
                       defaultSection: IniSection?, newSections: seq<IniSection>, name: string, section: IniSection)
    requires Mirrors(b, objs, sects, defaultSection, newSections) && name !in sects
    requires forall j :: 0 <= j < |objs| ==> objs[j] != section
    ensures Mirrors(OpenName(b, name), objs + [section], sects[name := section],
                    if name == DefaultName then section else defaultSection, newSections + [section])
  {
    var b' := OpenName(b, name);
    var objs' := objs + [section];
    assert b'.index == b.index[name := |objs|];
    assert sects[name := section] == Registered(b'.index, objs') by {
      RegisteredNew(b.index, objs, name, section);
    }
    assert Targets(b', objs', if name == DefaultName then section else defaultSection, newSections + [section]) by {
      assert objs'[..|objs|] == objs;
      forall j | 0 <= j < |objs| ensures objs'[..j] == objs[..j] {
      }
    }
  }

  /** Registering a name under the id of an object appended to `objs`. */
  lemma RegisteredNew(index: map<string, nat>, objs: seq<IniSection>, name: string, section: IniSection)
    requires forall n :: n in index ==> index[n] < |objs|
    requires name !in index
    ensures Registered(index[name := |objs|], objs + [section]) == Registered(index, objs)[name := section]
  {
    var objs' := objs + [section];
    assert forall n :: n in index ==> objs'[index[n]] == objs[index[n]];
  }

  /** One name of a header: the section registered under it, or a new, empty one (which
      becomes the `Default` section when it is so named), joins the target list. */
  method OpenSection(trimmedSectionName: string, sects: map<string, IniSection>, defaultSection: IniSection?,
                     newSections: seq<IniSection>, ghost b: Builder, ghost objs: seq<IniSection>)
    returns (sects': map<string, IniSection>, defaultSection': IniSection?, newSections': seq<IniSection>,
             ghost b': Builder, ghost objs': seq<IniSection>)
    requires Mirrors(b, objs, sects, defaultSection, newSections)
    requires Holds(objs, b.stores)
    ensures b' == OpenName(b, trimmedSectionName)
    ensures Mirrors(b', objs', sects', defaultSection', newSections')
    ensures Holds(objs', b'.stores)
    ensures Extends(objs, objs')
    ensures forall j :: |objs| <= j < |objs'| ==> fresh(objs'[j])
  {
    if trimmedSectionName in sects {
      var section := sects[trimmedSectionName];
      sects', defaultSection', newSections', objs' := sects, defaultSection, newSections + [section], objs;
      OpenSeenMirrors(b, objs, sects, defaultSection, newSections, trimmedSectionName);
    } else {
      var section := new IniSection();
      sects' := sects[trimmedSectionName := section];
      defaultSection' := defaultSection;
      if trimmedSectionName == DefaultName {
        defaultSection' := section;
      }
      newSections' := newSections + [section];
      objs' := objs + [section];
      OpenNewMirrors(b, objs, sects, defaultSection, newSections, trimmedSectionName, section);
      HoldsAppend(objs, b.stores, section);
    }
    b' := OpenName(b, trimmedSectionName);
  }

  /** The header branch of `LoadConfigLines`: the target list is cleared, then each name of
      the header, trimmed, is looked up; an unseen name gets a new, empty section, registered
      under it and remembered as the `Default` section when it is so named; either way the
      section joins the target list. */
  method OpenSections(sectionNames: seq<string>, sects: map<string, IniSection>, defaultSection: IniSection?,
                      ghost b: Builder, ghost objs: seq<IniSection>, ghost oldTargets: seq<IniSection>)
    returns (sects': map<string, IniSection>, defaultSection': IniSection?, newSections: seq<IniSection>,
             ghost b': Builder, ghost objs': seq<IniSection>)
    requires Mirrors(b, objs, sects, defaultSection, oldTargets)
    requires Holds(objs, b.stores)
    ensures b' == OpenNames(b.(target := []), TrimAll(sectionNames))
    ensures Mirrors(b', objs', sects', defaultSection', newSections)
    ensures Holds(objs', b'.stores)
    ensures Extends(objs, objs')
    ensures forall j :: |objs| <= j < |objs'| ==> fresh(objs'[j])
  {
    ghost var names := TrimAll(sectionNames);
    ghost var b0 := b.(target := []);
    sects', defaultSection', newSections := sects, defaultSection, [];
    b', objs' := b0, objs;
    for k := 0 to |sectionNames|
      invariant b' == OpenNames(b0, names[..k])
      invariant Mirrors(b', objs', sects', defaultSection', newSections)
      invariant Holds(objs', b'.stores)
      invariant Extends(objs, objs')
      invariant forall j :: |objs| <= j < |objs'| ==> fresh(objs'[j])
    {
      var trimmedSectionName := Trim(sectionNames[k]);
      OpenNamesSnoc(b0, names, k);
      sects', defaultSection', newSections, b', objs' :=
        OpenSection(trimmedSectionName, sects', defaultSection', newSections, b', objs');
    }
    assert names[..|names|] == names;
  }

  /** The assignment branch of `LoadConfigLines`: each section of the target list in turn
      gets the key set, as `MergeInto` decides. */
  method Broadcast(newSections: seq<IniSection>, defaultSection: IniSection?, op: Op, key: string, value: string,
                   ghost b: Builder, ghost objs: seq<IniSection>)
    requires Targets(b, objs, defaultSection, newSections)
    requires Holds(objs, b.stores)
    modifies objs
    ensures Holds(objs, ApplyAll(b.stores, b.defaultId, b.target, op, key, value))
  {
    assert forall i :: 0 <= i < |b.target| ==> b.target[i] < |b.stores| by {
      forall i | 0 <= i < |b.target| ensures b.target[i] < |b.stores| {
        assert newSections[i] == objs[b.target[i]];
      }
    }
    for k := 0 to |newSections|
      invariant Holds(objs, ApplyAll(b.stores, b.defaultId, b.target[..k], op, key, value))
    {
      ApplyStep(b.stores, b.defaultId, b.target, k, op, key, value);
      MergeInto(newSections[k], defaultSection, op, key, value,
                ApplyAll(b.stores, b.defaultId, b.target[..k], op, key, value), objs, b.defaultId, b.target[k]);
    }
    assert b.target[..|newSections|] == b.target;
  }

  /** One section of the target list: for a composing operator on a section that is not
      the `Default` object, while the `Default` object holds the key, the key is set to the
      value composed with the `Default` value (`d AND v` for `&=`, `d OR v` for `+=` and
      `|=`); in every other case to the value verbatim. */
  method MergeInto(section: IniSection, defaultSection: IniSection?, op: Op, key: string, value: string,
                   ghost m: seq<Store>, ghost objs: seq<IniSection>, ghost defaultId: Option<nat>, ghost id: nat)
    requires Holds(objs, m)
    requires forall j :: 0 <= j < |objs| ==> objs[j] !in objs[..j]
    requires id < |objs| && section == objs[id]
    requires defaultId.Some? ==> defaultId.value < |objs|
    requires defaultSection == if defaultId.Some? then objs[defaultId.value] else null
    modifies section
    ensures Holds(objs, ApplyTo(m, defaultId, id, op, key, value))
  {
    ghost var m' := ApplyTo(m, defaultId, id, op, key, value);
    var defaultValue: Option<string> := None;
    if op != Assign && defaultSection != null && section != defaultSection {
      defaultValue := defaultSection.TryGetValue(key);
    }
    assert defaultValue == Consulted(m, defaultId, id, op, key) by {
      if defaultId.Some? && id != defaultId.value {
        Distinct(objs, id, defaultId.value);
      }
    }
    var text := value;
    if defaultValue.Some? {
      if op == AmpAssign {
        text := defaultValue.value + " AND " + value;
      } else {
        text := defaultValue.value + " OR " + value;
      }
    }
    section.Set(key, text);
    forall j | 0 <= j < |objs| ensures objs[j].storage == m'[j] {
      if j != id {
        Distinct(objs, j, id);
      }
    }
  }

  /** Applying an assignment to one more section of the list is one more `ApplyTo`. */
  lemma ApplyStep(stores: seq<Store>, defaultId: Option<nat>, ids: seq<nat>, k: nat, op: Op, key: string, v: string)
    requires forall i :: 0 <= i < |ids| ==> ids[i] < |stores|
    requires defaultId.Some? ==> defaultId.value < |stores|
    requires k < |ids|
    ensures ApplyAll(stores, defaultId, ids[..k + 1], op, key, v)
      == ApplyTo(ApplyAll(stores, defaultId, ids[..k], op, key, v), defaultId, ids[k], op, key, v)
  {
    assert ids[..k + 1][..k] == ids[..k];
  }

  /** The body of the loop of `LoadConfigLines`, for one raw line: comments, blank lines
      and lines that match neither pattern are skipped, a header opens its sections, and an
      assignment is applied to the target list. */
  method LoadLine(rawLine: string, sects: map<string, IniSection>, defaultSection: IniSection?,
                  newSections: seq<IniSection>, ghost b: Builder, ghost objs: seq<IniSection>)
    returns (sects': map<string, IniSection>, defaultSection': IniSection?, newSections': seq<IniSection>,
             ghost b': Builder, ghost objs': seq<IniSection>)
    requires Mirrors(b, objs, sects, defaultSection, newSections)
    requires Holds(objs, b.stores)
    modifies objs
    ensures b' == Step(b, Classify(rawLine))
    ensures Mirrors(b', objs', sects', defaultSection', newSections')
    ensures Holds(objs', b'.stores)
    ensures Extends(objs, objs')
    ensures forall j :: |objs| <= j < |objs'| ==> fresh(objs'[j])
  {
    sects', defaultSection', newSections', b', objs' := sects, defaultSection, newSections, b, objs;
    var line := Trim(rawLine);
    if |line| > 0 && line[0] == ';' {
      // Comment
      ClassifyComment(rawLine);
      return;
    }
    if |line| == 0 {
      // Empty line
      ClassifyBlank(rawLine);
      return;
    }
    match MatchSection(line)
    case Some(group) =>
      ClassifyHeader(rawLine, group);
      var sectionNames := Split(group, ',');
      sects', defaultSection', newSections', b', objs' :=
        OpenSections(sectionNames, sects, defaultSection, b, objs, newSections);
    case None =>
      match MatchKeyValue(line)
      case Some(kv) =>
        ClassifyAssignment(rawLine, kv);
        Broadcast(newSections, defaultSection, kv.op, kv.key, kv.value, b, objs);
        b' := b.(stores := ApplyAll(b.stores, b.defaultId, b.target, kv.op, kv.key, kv.value));
      case None =>
        ClassifyUnrecognised(rawLine);
  }

  /** The content of each section, by name. */
  ghost function Contents(sections: map<string, IniSection>): map<string, Store>
    reads sections.Values
  {
    map n | n in sections :: sections[n].storage
  }

  /** The section objects, read by name, hold the document the builder describes. */
  lemma DocumentMirrors(b: Builder, objs: seq<IniSection>, sects: map<string, IniSection>,
                        defaultSection: IniSection?, newSections: seq<IniSection>)
    requires Mirrors(b, objs, sects, defaultSection, newSections) && Holds(objs, b.stores)
    ensures Contents(sects) == Document(b)
  {
  }

  /** The configuration: a dictionary from section name to section. */
  class IniFile {
    var sections: map<string, IniSection>

    /** What the queries see: each section's content under its name. */
    ghost function Queried(): map<string, Store>
      reads this, sections.Values
    {
      Contents(sections)
    }

    constructor()
      ensures Queried() == map[]
    {
      sections := map[];
    }

    /** `LoadConfigLines`: parses the lines into a new dictionary of new sections and then
        replaces the old dictionary with it, so what the queries see afterwards depends on
        these lines only. */
    method LoadConfigLines(configLines: seq<string>)
      modifies this
      ensures Queried() == Load(configLines)
      ensures forall n :: n in sections ==> fresh(sections[n])
    {
      var newSections: seq<IniSection> := [];
      var sects: map<string, IniSection> := map[];
      var defaultSection: IniSection? := null;
      ghost var lines := Classified(configLines);
      ghost var b := Start();
      ghost var objs: seq<IniSection> := [];
      for i := 0 to |configLines|
        invariant b == Execute(Start(), lines[..i])
        invariant Mirrors(b, objs, sects, defaultSection, newSections)
        invariant Holds(objs, b.stores)
        invariant forall j :: 0 <= j < |objs| ==> fresh(objs[j])
      {
        ExecutePrefix(Start(), lines, i);
        sects, defaultSection, newSections, b, objs :=
          LoadLine(configLines[i], sects, defaultSection, newSections, b, objs);
      }
      assert lines[..|configLines|] == lines;
      assert forall n :: n in sects ==> fresh(sects[n]) by {
        forall n | n in sects ensures fresh(sects[n]) {
          assert sects[n] == objs[b.index[n]];
        }
      }
      sections := sects;
      DocumentMirrors(b, objs, sections, defaultSection, newSections);
      assert Load(configLines) == Document(b);
    }

    /** `HasSection`: the section was named in a header and holds at least one key. */
    method HasSection(sectionName: string) returns (r: bool)
      ensures r == ConfigModel.HasSection(Queried(), sectionName)
    {
      if sectionName in sections {
        r := !sections[sectionName].IsEmpty();
      } else {
        r := false;
      }
    }

    /** `GetValueOrNull`: the stored value, or nothing when the section or the key is absent. */
    method GetValueOrNull(sectionName: string, key: string) returns (r: Option<string>)
      ensures r == GetValue(Queried(), sectionName, key)
    {
      r := None;
      if sectionName in sections {
        r := sections[sectionName].TryGetValue(key);
      }
    }
  }
}
