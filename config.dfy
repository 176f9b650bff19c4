/**
  The meaning of `IniFile.LoadConfigLines` as a value: a fold over the classified lines
  that keeps the registry of named sections, their key/value stores, which section is the
  one named `Default`, and the current target list (the sections named by the latest
  header). Sections are identified by their position in `stores`, so two names that share
  a section share an id, and "is this the `Default` section" is a comparison of ids, as
  the original compares object references.
 */
module ConfigModel {
  import opened Wrappers
  import opened Text
  import opened LineScanner

  type Store = map<string, string>

  /** The name whose section the composing operators consult. */
  const DefaultName: string := "Default"

  /** The state of the parse: `index` maps each section name seen so far to its id,
      `stores[id]` is that section's content, `defaultId` is the id of the section named
      `Default` (once there is one), and `target` lists the ids named by the latest
      header, in header order. */
  datatype Builder = Builder(index: map<string, nat>, stores: seq<Store>, defaultId: Option<nat>, target: seq<nat>)

  ghost predicate Valid(b: Builder)
  {
    && (forall n :: n in b.index ==> b.index[n] < |b.stores|)
    && (forall i :: 0 <= i < |b.target| ==> b.target[i] < |b.stores|)
    && b.defaultId == (if DefaultName in b.index then Some(b.index[DefaultName]) else None)
  }

  /** Before the first line: no sections, no `Default`, and an empty target list. */
  function Start(): (b: Builder)
    ensures Valid(b) && b.index == map[] && b.stores == [] && b.target == []
  {
    Builder(map[], [], None, [])
  }

  /** One name of a header: an unseen name gets a new, empty section (and becomes the
      `Default` section when it is named so); a name seen before reuses its section.
      Either way the section joins the target list. */
  function OpenName(b: Builder, name: string): (r: Builder)
    requires Valid(b)
    ensures Valid(r)
    ensures name in r.index && r.index.Keys == b.index.Keys + {name}
    ensures forall n :: n in b.index ==> r.index[n] == b.index[n]
    ensures r.target == b.target + [r.index[name]]
    ensures name in b.index ==> r.stores == b.stores
    ensures name !in b.index ==> r.index[name] == |b.stores| && r.stores == b.stores + [map[]]
  {
    if name in b.index then
      b.(target := b.target + [b.index[name]])
    else
      var id := |b.stores|;
      Builder(b.index[name := id], b.stores + [map[]],
              if name == DefaultName then Some(id) else b.defaultId,
              b.target + [id])
  }

  /** The names of a header, one after the other, each as `OpenName`. */
  function OpenNames(b: Builder, names: seq<string>): (r: Builder)
    requires Valid(b)
    ensures Valid(r)
    ensures |r.target| == |b.target| + |names|
    ensures |b.stores| <= |r.stores| <= |b.stores| + |names|
    decreases |names|
  {
    if names == [] then b
    else OpenName(OpenNames(b, names[..|names| - 1]), names[|names| - 1])
  }

  /** Opening one more name is one more `OpenName`. */
  lemma OpenNamesSnoc(b: Builder, names: seq<string>, k: nat)
    requires Valid(b) && k < |names|
    ensures OpenNames(b, names[..k + 1]) == OpenName(OpenNames(b, names[..k]), names[k])
  {
    assert names[..k + 1][..k] == names[..k];
  }

  /** Opening names registers exactly those names, and keeps the ids of the names already
      registered. */
  lemma {:induction false} OpenNamesIndex(b: Builder, names: seq<string>)
    requires Valid(b)
    ensures var r := OpenNames(b, names);
      && (forall n :: n in r.index <==> n in b.index || n in names)
      && (forall n :: n in b.index ==> r.index[n] == b.index[n])
    decreases |names|
  {
    if names != [] {
      var last := |names| - 1;
      OpenNamesIndex(b, names[..last]);
      assert forall n :: n in names <==> n in names[..last] || n == names[last];
    }
  }

  /** Opening names appends, for each name in order, the id it is registered under to the
      target list; a name that occurs twice contributes the same id twice. */
  lemma {:induction false} OpenNamesTarget(b: Builder, names: seq<string>)
    requires Valid(b)
    ensures var r := OpenNames(b, names);
      && |r.target| == |b.target| + |names|
      && (forall i :: 0 <= i < |b.target| ==> r.target[i] == b.target[i])
      && (forall i :: 0 <= i < |names| ==> names[i] in r.index && r.target[|b.target| + i] == r.index[names[i]])
    decreases |names|
  {
    if names != [] {
      var last := |names| - 1;
      var m := OpenNames(b, names[..last]);
      OpenNamesTarget(b, names[..last]);
      var r := OpenName(m, names[last]);
      forall i | 0 <= i < |names|
        ensures names[i] in r.index && r.target[|b.target| + i] == r.index[names[i]]
      {
        if i < last {
          assert names[..last][i] == names[i];
        }
      }
    }
  }

  /** Opening names leaves the content of every existing section alone; the sections it
      creates are empty. */
  lemma {:induction false} OpenNamesStores(b: Builder, names: seq<string>)
    requires Valid(b)
    ensures var r := OpenNames(b, names);
      && |b.stores| <= |r.stores|
      && (forall id :: 0 <= id < |b.stores| ==> r.stores[id] == b.stores[id])
      && (forall id :: |b.stores| <= id < |r.stores| ==> r.stores[id] == map[])
    decreases |names|
  {
    if names != [] {
      OpenNamesStores(b, names[..|names| - 1]);
    }
  }

  /** A header line: the target list is cleared, then each name is opened in turn. */
  function OpenHeader(b: Builder, names: seq<string>): (r: Builder)
    requires Valid(b)
    ensures Valid(r)
    ensures |r.target| == |names|
    ensures forall i :: 0 <= i < |names| ==> names[i] in r.index && r.target[i] == r.index[names[i]]
  {
    OpenNamesTarget(b.(target := []), names);
    OpenNames(b.(target := []), names)
  }

  /** The composed text: `d AND v` for `&=`, `d OR v` for `+=` and `|=`. */
  function Compose(op: Op, d: string, v: string): (r: string)
    requires op != Assign
    ensures r == d + (if op == AmpAssign then " AND " else " OR ") + v
    ensures r[..|d|] == d && r[|r| - |v|..] == v
    ensures |r| == |d| + |v| + (if op == AmpAssign then 5 else 4)
  {
    match op
    case AmpAssign => d + " AND " + v
    case PlusAssign => d + " OR " + v
    case BarAssign => d + " OR " + v
  }

  /** The `Default` value an assignment to section `id` composes with: there is one only for
      a composing operator, once a `Default` section exists, when `id` is not that section,
      and when it holds the key. */
  function Consulted(stores: seq<Store>, defaultId: Option<nat>, id: nat, op: Op, key: string): (d: Option<string>)
    requires defaultId.Some? ==> defaultId.value < |stores|
    ensures d.Some? <==>
      op != Assign && defaultId.Some? && id != defaultId.value && key in stores[defaultId.value]
    ensures d.Some? ==> d.value == stores[defaultId.value][key]
  {
    if op != Assign && defaultId.Some? && id != defaultId.value && key in stores[defaultId.value] then
      Some(stores[defaultId.value][key])
    else
      None
  }

  /** The text an assignment stores in section `id`: composed with the consulted `Default`
      value if there is one, the value verbatim otherwise. */
  function Stored(stores: seq<Store>, defaultId: Option<nat>, id: nat, op: Op, key: string, v: string): (r: string)
    requires defaultId.Some? ==> defaultId.value < |stores|
    ensures op == Assign || defaultId.None? || id == defaultId.value ==> r == v
    ensures defaultId.Some? && key !in stores[defaultId.value] ==> r == v
    ensures op != Assign && defaultId.Some? && id != defaultId.value && key in stores[defaultId.value] ==>
      r == stores[defaultId.value][key] + (if op == AmpAssign then " AND " else " OR ") + v
  {
    match Consulted(stores, defaultId, id, op, key)
    case Some(d) => Compose(op, d, v)
    case None => v
  }

  /** An assignment applied to one section: that section's key is set, nothing else moves. */
  function ApplyTo(stores: seq<Store>, defaultId: Option<nat>, id: nat, op: Op, key: string, v: string): (r: seq<Store>)
    requires id < |stores| && (defaultId.Some? ==> defaultId.value < |stores|)
    ensures |r| == |stores|
    ensures r[id] == stores[id][key := Stored(stores, defaultId, id, op, key, v)]
    ensures forall j :: 0 <= j < |stores| && j != id ==> r[j] == stores[j]
  {
    stores[id := stores[id][key := Stored(stores, defaultId, id, op, key, v)]]
  }

  /** An assignment applied to each section of `ids` in order; each application sees the
      stores as the earlier ones left them. */
  function ApplyAll(stores: seq<Store>, defaultId: Option<nat>, ids: seq<nat>, op: Op, key: string, v: string): (r: seq<Store>)
    requires forall i :: 0 <= i < |ids| ==> ids[i] < |stores|
    requires defaultId.Some? ==> defaultId.value < |stores|
    ensures |r| == |stores|
    ensures forall j :: 0 <= j < |stores| && j !in ids ==> r[j] == stores[j]
    decreases |ids|
  {
    if ids == [] then stores
    else
      var last := |ids| - 1;
      var m := ApplyAll(stores, defaultId, ids[..last], op, key, v);
      assert forall j :: j in ids[..last] ==> j in ids;
      ApplyTo(m, defaultId, ids[last], op, key, v)
  }

  /** The position of the last occurrence of `x` in `ids`. */
  function LastPos(ids: seq<nat>, x: nat): (j: nat)
    requires x in ids
    ensures j < |ids| && ids[j] == x
    ensures forall k :: j < k < |ids| ==> ids[k] != x
    decreases |ids|
  {
    if ids[|ids| - 1] == x then |ids| - 1 else LastPos(ids[..|ids| - 1], x)
  }

  /** The `Default` section's value for `key` once the assignment has been applied to the
      sections `done`: the assigned value if `Default` is among them (it never composes
      with itself), its earlier value otherwise. */
  function DefaultAfter(stores: seq<Store>, defaultId: nat, done: seq<nat>, key: string, v: string): Option<string>
    requires defaultId < |stores|
  {
    if defaultId in done then Some(v)
    else if key in stores[defaultId] then Some(stores[defaultId][key])
    else None
  }

  /** What the assignment leaves in section `id` when the sections `done` were handled
      before it: the value composed with `Default`'s current value for a composing operator
      on a section other than `Default`, once `Default` holds the key; the value verbatim
      in every other case. No section other than `Default` is ever consulted. */
  function Written(stores: seq<Store>, defaultId: Option<nat>, done: seq<nat>, id: nat, op: Op, key: string, v: string): string
    requires defaultId.Some? ==> defaultId.value < |stores|
  {
    if op != Assign && defaultId.Some? && id != defaultId.value then
      match DefaultAfter(stores, defaultId.value, done, key, v)
      case Some(d) => Compose(op, d, v)
      case None => v
    else v
  }

  /** The effect of applying one assignment to a target list: every listed section ends
      with `key` set to what was written at its last occurrence in the list, all its other
      keys as before; unlisted sections are unchanged. */
  lemma {:induction false} ApplyAllEffect(stores: seq<Store>, defaultId: Option<nat>, ids: seq<nat>, op: Op, key: string, v: string)
    requires forall i :: 0 <= i < |ids| ==> ids[i] < |stores|
    requires defaultId.Some? ==> defaultId.value < |stores|
    ensures WrittenEverywhere(stores, defaultId, ids, op, key, v)
    decreases |ids|
  {
    if ids != [] {
      var p := ids[..|ids| - 1];
      ApplyAllEffect(stores, defaultId, p, op, key, v);
      forall x | x in ids
        ensures ApplyAll(stores, defaultId, ids, op, key, v)[x] ==
          stores[x][key := Written(stores, defaultId, ids[..LastPos(ids, x)], x, op, key, v)]
      {
        if x == ids[|ids| - 1] {
          WrittenAtLast(stores, defaultId, ids, op, key, v);
        } else {
          WrittenBefore(stores, defaultId, ids, op, key, v, x);
        }
      }
    }
  }

  /** The conclusion of `ApplyAllEffect` for the list `ids`. */
  ghost predicate WrittenEverywhere(stores: seq<Store>, defaultId: Option<nat>, ids: seq<nat>, op: Op, key: string, v: string)
    requires forall i :: 0 <= i < |ids| ==> ids[i] < |stores|
    requires defaultId.Some? ==> defaultId.value < |stores|
  {
    var r := ApplyAll(stores, defaultId, ids, op, key, v);
    forall x :: x in ids ==>
      r[x] == stores[x][key := Written(stores, defaultId, ids[..LastPos(ids, x)], x, op, key, v)]
  }

  /** The last section of the list is written with `Default` as the earlier ones left it. */
  lemma WrittenAtLast(stores: seq<Store>, defaultId: Option<nat>, ids: seq<nat>, op: Op, key: string, v: string)
    requires forall i :: 0 <= i < |ids| ==> ids[i] < |stores|
    requires defaultId.Some? ==> defaultId.value < |stores|
    requires ids != [] && WrittenEverywhere(stores, defaultId, ids[..|ids| - 1], op, key, v)
    ensures var y := ids[|ids| - 1];
      ApplyAll(stores, defaultId, ids, op, key, v)[y] ==
        stores[y][key := Written(stores, defaultId, ids[..LastPos(ids, y)], y, op, key, v)]
  {
    var p, y := ids[..|ids| - 1], ids[|ids| - 1];
    var m := ApplyAll(stores, defaultId, p, op, key, v);
    assert LastPos(ids, y) == |ids| - 1;
    if defaultId.Some? {
      var d := defaultId.value;
      assert d in p ==> m[d] == stores[d][key := Written(stores, defaultId, p[..LastPos(p, d)], d, op, key, v)];
      ConsultedAfter(stores, m, d, p, y, op, key, v);
    }
    var w := Written(stores, defaultId, p, y, op, key, v);
    if y in p {
      var w' := Written(stores, defaultId, p[..LastPos(p, y)], y, op, key, v);
      Overwrite(stores[y], key, w', w);
    }
  }

  /** The value consulted for the last section is `Default`'s value after the earlier ones. */
  lemma ConsultedAfter(stores: seq<Store>, m: seq<Store>, d: nat, p: seq<nat>, y: nat, op: Op, key: string, v: string)
    requires d < |stores| == |m|
    requires m[d] == if d in p then stores[d][key := v] else stores[d]
    ensures Stored(m, Some(d), y, op, key, v) == Written(stores, Some(d), p, y, op, key, v)
  {
  }

  /** Setting a key twice keeps only the second value. */
  lemma Overwrite(s: Store, key: string, a: string, b: string)
    ensures s[key := a][key := b] == s[key := b]
  {
  }

  /** A section before the last one keeps what was written at its own last occurrence. */
  lemma WrittenBefore(stores: seq<Store>, defaultId: Option<nat>, ids: seq<nat>, op: Op, key: string, v: string, x: nat)
    requires forall i :: 0 <= i < |ids| ==> ids[i] < |stores|
    requires defaultId.Some? ==> defaultId.value < |stores|
    requires ids != [] && WrittenEverywhere(stores, defaultId, ids[..|ids| - 1], op, key, v)
    requires x in ids && x != ids[|ids| - 1]
    ensures ApplyAll(stores, defaultId, ids, op, key, v)[x] ==
      stores[x][key := Written(stores, defaultId, ids[..LastPos(ids, x)], x, op, key, v)]
  {
    var p := ids[..|ids| - 1];
    LastPosOfPrefix(ids, x);
    var j := LastPos(p, x);
    assert ids[..j] == p[..j];
  }

  /** An element other than the last one has its last occurrence in the prefix. */
  lemma LastPosOfPrefix(ids: seq<nat>, x: nat)
    requires x in ids && x != ids[|ids| - 1]
    ensures x in ids[..|ids| - 1] && LastPos(ids, x) == LastPos(ids[..|ids| - 1], x)
  {
    var k :| 0 <= k < |ids| && ids[k] == x;
    assert ids[..|ids| - 1][k] == x;
  }

  /** `=` stores the value verbatim in every target section, whatever `Default` holds. */
  lemma PlainAssignVerbatim(stores: seq<Store>, defaultId: Option<nat>, ids: seq<nat>, key: string, v: string)
    requires forall i :: 0 <= i < |ids| ==> ids[i] < |stores|
    requires defaultId.Some? ==> defaultId.value < |stores|
    ensures var r := ApplyAll(stores, defaultId, ids, Assign, key, v);
      forall x :: x in ids ==> r[x] == stores[x][key := v]
  {
    ApplyAllEffect(stores, defaultId, ids, Assign, key, v);
  }

  /** Without a `Default` section, every operator stores the value verbatim. */
  lemma NoDefaultVerbatim(stores: seq<Store>, ids: seq<nat>, op: Op, key: string, v: string)
    requires forall i :: 0 <= i < |ids| ==> ids[i] < |stores|
    ensures var r := ApplyAll(stores, None, ids, op, key, v);
      forall x :: x in ids ==> r[x] == stores[x][key := v]
  {
    ApplyAllEffect(stores, None, ids, op, key, v);
  }

  /** The `Default` section itself always receives the value verbatim. */
  lemma DefaultGetsVerbatim(stores: seq<Store>, d: nat, ids: seq<nat>, op: Op, key: string, v: string)
    requires forall i :: 0 <= i < |ids| ==> ids[i] < |stores|
    requires d < |stores| && d in ids
    ensures ApplyAll(stores, Some(d), ids, op, key, v)[d] == stores[d][key := v]
  {
    ApplyAllEffect(stores, Some(d), ids, op, key, v);
  }

  /** A composing operator on a section other than `Default`, listed before `Default` (or
      with no `Default` in the list): it composes with `Default`'s earlier value when there
      is one (`d AND v`, or `d OR v` for both `+=` and `|=`), and stores `v` verbatim when
      `Default` lacks the key. */
  lemma ComposeWithEarlierDefault(stores: seq<Store>, d: nat, ids: seq<nat>, op: Op, key: string, v: string, x: nat)
    requires forall i :: 0 <= i < |ids| ==> ids[i] < |stores|
    requires d < |stores| && op != Assign && x in ids && x != d
    requires d !in ids[..LastPos(ids, x)]
    ensures var r := ApplyAll(stores, Some(d), ids, op, key, v);
      && key in r[x]
      && (key in stores[d] ==> r[x][key] == stores[d][key] + (if op == AmpAssign then " AND " else " OR ") + v)
      && (key !in stores[d] ==> r[x][key] == v)
  {
    ApplyAllEffect(stores, Some(d), ids, op, key, v);
  }

  /** Application is sequential: with `Default` listed first, `Default` receives `v` and a
      later section `x` composes with that fresh value, whatever `Default` held before. */
  lemma DefaultFirstThenCompose(stores: seq<Store>, d: nat, x: nat, op: Op, key: string, v: string)
    requires d < |stores| && x < |stores| && x != d && op != Assign
    ensures var r := ApplyAll(stores, Some(d), [d, x], op, key, v);
      && r[d] == stores[d][key := v]
      && r[x] == stores[x][key := v + (if op == AmpAssign then " AND " else " OR ") + v]
  {
    var ids := [d, x];
    ApplyAllEffect(stores, Some(d), ids, op, key, v);
    assert LastPos(ids, x) == 1 && LastPos(ids, d) == 0;
    assert ids[..1] == [d];
  }

  /** One classified line: a header opens its names, an assignment is applied to the target
      list, and every other kind of line changes nothing. */
  function Step(b: Builder, line: Line): (r: Builder)
    requires Valid(b)
    ensures Valid(r)
    ensures Skipped(line) ==> r == b
    ensures line.Assignment? ==> r.index == b.index && r.defaultId == b.defaultId && r.target == b.target
    ensures line.Assignment? ==> |r.stores| == |b.stores|
    ensures line.Header? ==> |r.target| == |line.names|
  {
    match line
    case Header(names) => OpenHeader(b, names)
    case Assignment(key, op, value) => b.(stores := ApplyAll(b.stores, b.defaultId, b.target, op, key, value))
    case _ => b
  }

  /** The classified lines, folded into the builder in order. */
  function Execute(b: Builder, lines: seq<Line>): (r: Builder)
    requires Valid(b)
    ensures Valid(r)
    ensures Significant(lines) == [] ==> r == b
    decreases |lines|
  {
    if lines == [] then b
    else Step(Execute(b, lines[..|lines| - 1]), lines[|lines| - 1])
  }

  /** Each raw line classified on its own. */
  function Classified(raws: seq<string>): (lines: seq<Line>)
    ensures |lines| == |raws|
    ensures forall i :: 0 <= i < |raws| ==> lines[i] == Classify(raws[i])
  {
    seq(|raws|, i requires 0 <= i < |raws| => Classify(raws[i]))
  }

  /** A comment, a blank line, or a line that matches neither pattern. */
  predicate Skipped(line: Line)
  {
    !line.Header? && !line.Assignment?
  }

  /** The headers and assignments among `lines`, in their original order. */
  function Significant(lines: seq<Line>): (r: seq<Line>)
    ensures |r| <= |lines|
    ensures forall i :: 0 <= i < |r| ==> !Skipped(r[i])
    decreases |lines|
  {
    if lines == [] then []
    else
      var last := lines[|lines| - 1];
      Significant(lines[..|lines| - 1]) + (if Skipped(last) then [] else [last])
  }

  /** Comments, blank lines and lines that match neither pattern change nothing: dropping
      them all leaves the outcome as it was. */
  lemma {:induction false} SkippedLinesChangeNothing(b: Builder, lines: seq<Line>)
    requires Valid(b)
    ensures Execute(b, lines) == Execute(b, Significant(lines))
    decreases |lines|
  {
    if lines != [] {
      var p, last := lines[..|lines| - 1], lines[|lines| - 1];
      SkippedLinesChangeNothing(b, p);
      var q := Significant(p);
      var e := Execute(b, p);
      assert Execute(b, lines) == Step(e, last);
      if Skipped(last) {
        assert Significant(lines) == q;
        StepSkipped(e, last);
      } else {
        assert Significant(lines) == q + [last];
        ExecuteSnoc(b, q, last);
      }
    }
  }

  /** Executing the lines up to and including line `i` is one more step than up to `i`. */
  lemma ExecutePrefix(b: Builder, lines: seq<Line>, i: nat)
    requires Valid(b) && i < |lines|
    ensures Execute(b, lines[..i + 1]) == Step(Execute(b, lines[..i]), lines[i])
  {
    assert lines[..i + 1][..i] == lines[..i];
  }

  /** A skipped line is a step that changes nothing. */
  lemma StepSkipped(b: Builder, line: Line)
    requires Valid(b) && Skipped(line)
    ensures Step(b, line) == b
  {
  }

  /** Executing one more line is one more step. */
  lemma ExecuteSnoc(b: Builder, lines: seq<Line>, line: Line)
    requires Valid(b)
    ensures Execute(b, lines + [line]) == Step(Execute(b, lines), line)
  {
    assert (lines + [line])[..|lines|] == lines;
  }

  /** Assignments before the first header have no target and are dropped: lines with no
      header at all leave no section. */
  lemma {:induction false} NoHeaderNoSections(lines: seq<Line>)
    requires forall i :: 0 <= i < |lines| ==> !lines[i].Header?
    ensures Execute(Start(), lines) == Start()
    decreases |lines|
  {
    if lines != [] {
      var p := lines[..|lines| - 1];
      assert forall i :: 0 <= i < |p| ==> p[i] == lines[i];
      NoHeaderNoSections(p);
    }
  }

  /** Executing two runs of lines one after the other is executing their concatenation. */
  lemma {:induction false} ExecuteAppend(b: Builder, lines: seq<Line>, more: seq<Line>)
    requires Valid(b)
    ensures Execute(b, lines + more) == Execute(Execute(b, lines), more)
    decreases |more|
  {
    if more == [] {
      assert lines + more == lines;
    } else {
      var p, last := more[..|more| - 1], more[|more| - 1];
      var e := Execute(b, lines);
      calc {
        Execute(b, lines + more);
        { assert lines + more == (lines + p) + [last]; }
        Execute(b, (lines + p) + [last]);
        { ExecuteSnoc(b, lines + p, last); }
        Step(Execute(b, lines + p), last);
        { ExecuteAppend(b, lines, p); }
        Step(Execute(e, p), last);
        Execute(e, more);
      }
    }
  }

  /** Lines before the first header (assignments included) are dropped: the outcome is as
      if the document started at that header. */
  lemma LeadingLinesDropped(before: seq<Line>, rest: seq<Line>)
    requires forall i :: 0 <= i < |before| ==> !before[i].Header?
    ensures Execute(Start(), before + rest) == Execute(Start(), rest)
  {
    NoHeaderNoSections(before);
    ExecuteAppend(Start(), before, rest);
  }

  /** A step keeps every registered name under its id, and with it the `Default` section. */
  lemma StepKeepsIndex(b: Builder, line: Line)
    requires Valid(b)
    ensures var r := Step(b, line);
      && (forall n :: n in b.index ==> n in r.index && r.index[n] == b.index[n])
      && (b.defaultId.Some? ==> r.defaultId == b.defaultId)
  {
    if line.Header? {
      OpenNamesIndex(b.(target := []), line.names);
    }
  }

  /** Once a name has a section it keeps it for the rest of the document; in particular the
      `Default` section is bound once, when it is first created, and never rebound. */
  lemma {:induction false} SectionsStayBound(lines: seq<Line>, i: nat)
    requires i <= |lines|
    ensures var early, r := Execute(Start(), lines[..i]), Execute(Start(), lines);
      && (forall n :: n in early.index ==> n in r.index && r.index[n] == early.index[n])
      && (early.defaultId.Some? ==> r.defaultId == early.defaultId)
    decreases |lines|
  {
    if i == |lines| {
      assert lines[..i] == lines;
    } else {
      var p := lines[..|lines| - 1];
      assert lines[..i] == p[..i];
      SectionsStayBound(p, i);
      StepKeepsIndex(Execute(Start(), p), lines[|lines| - 1]);
    }
  }

  /** `n` is one of the names of some header line. */
  ghost predicate NamedInHeader(lines: seq<Line>, n: string)
  {
    exists i :: 0 <= i < |lines| && lines[i].Header? && n in lines[i].names
  }

  /** The registered sections are exactly the names that occur in header lines. */
  lemma {:induction false} RegisteredNames(lines: seq<Line>)
    ensures forall n :: n in Execute(Start(), lines).index <==> NamedInHeader(lines, n)
    decreases |lines|
  {
    if lines != [] {
      var p, last := lines[..|lines| - 1], lines[|lines| - 1];
      RegisteredNames(p);
      var m := Execute(Start(), p);
      if last.Header? {
        OpenNamesIndex(m.(target := []), last.names);
      }
      forall n ensures n in Execute(Start(), lines).index <==> NamedInHeader(lines, n) {
        NamedInLast(lines, n);
      }
    }
  }

  /** A name occurs in a header of `lines` when it occurs in one before the last line or in
      the last line itself. */
  lemma NamedInLast(lines: seq<Line>, n: string)
    requires lines != []
    ensures var p, last := lines[..|lines| - 1], lines[|lines| - 1];
      NamedInHeader(lines, n) <==> NamedInHeader(p, n) || (last.Header? && n in last.names)
  {
    var p := lines[..|lines| - 1];
    if NamedInHeader(lines, n) {
      var i :| 0 <= i < |lines| && lines[i].Header? && n in lines[i].names;
      if i < |p| { assert p[i] == lines[i]; }
    }
    if NamedInHeader(p, n) {
      var i :| 0 <= i < |p| && p[i].Header? && n in p[i].names;
      assert lines[i] == p[i];
    }
  }

  /** Different names have different sections. */
  ghost predicate OwnSections(b: Builder)
  {
    forall n, m :: n in b.index && m in b.index && n != m ==> b.index[n] != b.index[m]
  }

  /** Opening names never lets two names share a section: an unseen name gets a new one. */
  lemma {:induction false} OpenNamesOwnSections(b: Builder, names: seq<string>)
    requires Valid(b) && OwnSections(b)
    ensures OwnSections(OpenNames(b, names))
    decreases |names|
  {
    if names != [] {
      OpenNamesOwnSections(b, names[..|names| - 1]);
    }
  }

  /** Every name a header introduces gets a section of its own. */
  lemma {:induction false} ExecuteOwnSections(lines: seq<Line>)
    ensures OwnSections(Execute(Start(), lines))
    decreases |lines|
  {
    if lines != [] {
      var m := Execute(Start(), lines[..|lines| - 1]);
      ExecuteOwnSections(lines[..|lines| - 1]);
      if lines[|lines| - 1].Header? {
        OpenNamesOwnSections(m.(target := []), lines[|lines| - 1].names);
      }
    }
  }

  /** The position of the latest header line, if there is one. */
  function LatestHeader(lines: seq<Line>): (h: Option<nat>)
    ensures h.Some? ==> h.value < |lines| && lines[h.value].Header?
    ensures h.Some? ==> forall k :: h.value < k < |lines| ==> !lines[k].Header?
    ensures h.None? ==> forall k :: 0 <= k < |lines| ==> !lines[k].Header?
    decreases |lines|
  {
    if lines == [] then None
    else if lines[|lines| - 1].Header? then Some(|lines| - 1)
    else LatestHeader(lines[..|lines| - 1])
  }

  /** Some assignment line follows a header naming `n`, with no other header in between:
      while that assignment is read, `n`'s section is among the targets. */
  ghost predicate AssignedUnder(lines: seq<Line>, n: string)
  {
    exists i, j :: 0 <= i < j < |lines| && lines[i].Header? && n in lines[i].names && lines[j].Assignment? &&
      forall k :: i < k < j ==> !lines[k].Header?
  }

  /** The invariant of the fold that ties sections back to lines: a registered section holds
      a key exactly when an assignment was made under a header naming it, every such name is
      registered, and the targets are exactly the sections of the latest header's names. */
  ghost predicate KeysTraced(lines: seq<Line>, b: Builder)
    requires Valid(b)
  {
    var h := LatestHeader(lines);
    && (forall n :: n in b.index ==> (b.stores[b.index[n]] != map[] <==> AssignedUnder(lines, n)))
    && (forall n :: AssignedUnder(lines, n) ==> n in b.index)
    && (forall n :: n in b.index && b.index[n] in b.target ==> h.Some? && n in lines[h.value].names)
    && (h.Some? ==> forall n :: n in lines[h.value].names ==> n in b.index && b.index[n] in b.target)
  }

  /** One more line is the latest header exactly when it is a header. */
  lemma LatestHeaderSnoc(p: seq<Line>, last: Line)
    ensures LatestHeader(p + [last]) == if last.Header? then Some(|p|) else LatestHeader(p)
  {
    assert (p + [last])[..|p|] == p;
  }

  /** An assignment made under a header naming `n` is either one made before the last line,
      or the last line itself, read while the latest earlier header names `n`. */
  lemma AssignedUnderSnoc(p: seq<Line>, last: Line, n: string)
    ensures AssignedUnder(p + [last], n) <==>
      AssignedUnder(p, n) || (last.Assignment? && LatestHeader(p).Some? && n in p[LatestHeader(p).value].names)
  {
    var lines := p + [last];
    assert forall k :: 0 <= k < |p| ==> lines[k] == p[k];
    var h := LatestHeader(p);
    if AssignedUnder(lines, n) {
      var i, j :| 0 <= i < j < |lines| && lines[i].Header? && n in lines[i].names && lines[j].Assignment? &&
        forall k :: i < k < j ==> !lines[k].Header?;
      if j < |p| {
        assert p[i].Header? && n in p[i].names && p[j].Assignment? && forall k :: i < k < j ==> !p[k].Header?;
      } else {
        assert h.Some? && h.value == i;
      }
    }
    if AssignedUnder(p, n) {
      var i, j :| 0 <= i < j < |p| && p[i].Header? && n in p[i].names && p[j].Assignment? &&
        forall k :: i < k < j ==> !p[k].Header?;
      assert lines[i].Header? && n in lines[i].names && lines[j].Assignment? && forall k :: i < k < j ==> !lines[k].Header?;
    }
    if last.Assignment? && h.Some? && n in p[h.value].names {
      assert lines[h.value].Header? && n in lines[h.value].names && lines[|p|].Assignment?;
      assert forall k :: h.value < k < |p| ==> !lines[k].Header?;
    }
  }

  /** Names a header registers for the first time get sections created by that header. */
  lemma {:induction false} OpenNamesFresh(b: Builder, names: seq<string>)
    requires Valid(b)
    ensures var r := OpenNames(b, names);
      forall n :: n in r.index && n !in b.index ==> |b.stores| <= r.index[n]
    decreases |names|
  {
    if names != [] {
      OpenNamesFresh(b, names[..|names| - 1]);
    }
  }

  /** An assignment broadcast to a target list leaves the key in every listed section. */
  lemma {:induction false} ApplyAllSetsKey(stores: seq<Store>, defaultId: Option<nat>, ids: seq<nat>, op: Op, key: string, v: string)
    requires forall i :: 0 <= i < |ids| ==> ids[i] < |stores|
    requires defaultId.Some? ==> defaultId.value < |stores|
    ensures forall i :: 0 <= i < |ids| ==> key in ApplyAll(stores, defaultId, ids, op, key, v)[ids[i]]
    decreases |ids|
  {
    if ids != [] {
      var last := |ids| - 1;
      ApplyAllSetsKey(stores, defaultId, ids[..last], op, key, v);
      assert forall i :: 0 <= i < last ==> ids[..last][i] == ids[i];
    }
  }

  /** A header line keeps the invariant: old sections keep their content, new ones are empty,
      and the targets become the sections of its names. */
  lemma HeaderKeysTraced(p: seq<Line>, m: Builder, names: seq<string>)
    requires Valid(m) && KeysTraced(p, m) && OwnSections(OpenHeader(m, names))
    ensures KeysTraced(p + [Header(names)], OpenHeader(m, names))
  {
    var lines, r := p + [Header(names)], OpenHeader(m, names);
    LatestHeaderSnoc(p, Header(names));
    assert lines[|p|] == Header(names);
    OpenNamesIndex(m.(target := []), names);
    OpenNamesStores(m.(target := []), names);
    OpenNamesFresh(m.(target := []), names);
    forall n ensures AssignedUnder(lines, n) <==> AssignedUnder(p, n) {
      AssignedUnderSnoc(p, Header(names), n);
    }
    forall n | n in r.index && r.index[n] in r.target ensures n in names {
      var i :| 0 <= i < |r.target| && r.target[i] == r.index[n];
      assert r.index[names[i]] == r.index[n];
    }
  }

  /** An assignment line keeps the invariant: the targets, which are exactly the sections of
      the latest header's names, gain the key, and no other section changes. */
  lemma AssignmentKeysTraced(p: seq<Line>, m: Builder, key: string, op: Op, value: string)
    requires Valid(m) && KeysTraced(p, m)
    ensures KeysTraced(p + [Assignment(key, op, value)], Step(m, Assignment(key, op, value)))
  {
    var last := Assignment(key, op, value);
    var lines, r := p + [last], Step(m, last);
    LatestHeaderSnoc(p, last);
    assert forall k :: 0 <= k < |p| ==> lines[k] == p[k];
    ApplyAllSetsKey(m.stores, m.defaultId, m.target, op, key, value);
    forall n ensures AssignedUnder(lines, n) <==>
      AssignedUnder(p, n) || (LatestHeader(p).Some? && n in p[LatestHeader(p).value].names)
    {
      AssignedUnderSnoc(p, last, n);
    }
    forall n | n in r.index && r.index[n] in r.target ensures r.stores[r.index[n]] != map[] {
      var i :| 0 <= i < |m.target| && m.target[i] == m.index[n];
      assert key in r.stores[m.target[i]];
    }
  }

  /** The invariant holds after any lines. */
  lemma {:induction false} ExecuteKeysTraced(lines: seq<Line>)
    ensures KeysTraced(lines, Execute(Start(), lines))
    decreases |lines|
  {
    if lines != [] {
      var p, last := lines[..|lines| - 1], lines[|lines| - 1];
      assert lines == p + [last];
      ExecuteKeysTraced(p);
      var m := Execute(Start(), p);
      match last
      case Header(names) =>
        ExecuteOwnSections(lines);
        HeaderKeysTraced(p, m, names);
      case Assignment(key, op, value) =>
        AssignmentKeysTraced(p, m, key, op, value);
      case _ =>
        LatestHeaderSnoc(p, last);
        forall n ensures AssignedUnder(lines, n) <==> AssignedUnder(p, n) {
          AssignedUnderSnoc(p, last, n);
        }
    }
  }

  /** The sections a builder describes, by name. */
  function Document(b: Builder): (doc: map<string, Store>)
    requires Valid(b)
    ensures doc.Keys == b.index.Keys
    ensures forall n :: n in doc ==> doc[n] == b.stores[b.index[n]]
  {
    map n | n in b.index :: b.stores[b.index[n]]
  }

  /** The header `[Default, X]` followed by `foo &= B`: the `Default` section receives `B`
      and `X`, handled after it, composes with that fresh value. */
  lemma BroadcastExample()
    ensures Document(Execute(Start(), [Header(["Default", "X"]), Assignment("foo", AmpAssign, "B")]))
      == map["Default" := map["foo" := "B"], "X" := map["foo" := "B AND B"]]
  {
    var h := Header(["Default", "X"]);
    var a := Assignment("foo", AmpAssign, "B");
    var b1 := Builder(map["Default" := 0, "X" := 1], [map[], map[]], Some(0), [0, 1]);
    HeaderExample();
    assert Execute(Start(), [h]) == b1 by {
      assert [h][..0] == [];
    }
    var st := [map["foo" := "B"], map["foo" := "B AND B"]];
    AssignmentExample();
    ExecuteSnoc(Start(), [h], a);
    assert [h] + [a] == [h, a];
    var b2 := b1.(stores := st);
    assert Execute(Start(), [h, a]) == b2;
    DocumentExample();
  }

  /** The document of the two example sections after the assignment. */
  lemma DocumentExample()
    ensures Document(Builder(map["Default" := 0, "X" := 1], [map["foo" := "B"], map["foo" := "B AND B"]], Some(0), [0, 1]))
      == map["Default" := map["foo" := "B"], "X" := map["foo" := "B AND B"]]
  {
    var doc := Document(Builder(map["Default" := 0, "X" := 1], [map["foo" := "B"], map["foo" := "B AND B"]], Some(0), [0, 1]));
    assert doc.Keys == {"Default", "X"};
  }

  /** `foo &= B` on the empty `Default` section and then on the empty section `X`. */
  lemma AssignmentExample()
    ensures ApplyAll([map[], map[]], Some(0), [0, 1], AmpAssign, "foo", "B")
      == [map["foo" := "B"], map["foo" := "B AND B"]]
  {
    var st := ApplyAll([map[], map[]], Some(0), [0, 1], AmpAssign, "foo", "B");
    DefaultFirstThenCompose([map[], map[]], 0, 1, AmpAssign, "foo", "B");
    AndOfB();
    assert |st| == 2 && st[0] == map["foo" := "B"] && st[1] == map["foo" := "B AND B"];
  }

  lemma AndOfB()
    ensures "B" + " AND " + "B" == "B AND B"
  {
    var s := "B" + " AND " + "B";
    assert |s| == 7;
    assert s[0] == 'B' && s[1] == ' ' && s[2] == 'A' && s[3] == 'N' && s[4] == 'D' && s[5] == ' ' && s[6] == 'B';
  }

  /** The header `[Default, X]` on a fresh builder: two new sections, the first of them the
      `Default` section, both targeted. */
  lemma HeaderExample()
    ensures OpenHeader(Start(), ["Default", "X"])
      == Builder(map["Default" := 0, "X" := 1], [map[], map[]], Some(0), [0, 1])
  {
    var names := ["Default", "X"];
    var b0 := Start();
    var b := OpenName(b0, "Default");
    assert b == Builder(map["Default" := 0], [map[]], Some(0), [0]);
    assert names[..1] == ["Default"] && ["Default"][..0] == [];
    assert OpenNames(b0, ["Default"]) == b;
    assert "X" != DefaultName;
    assert OpenName(b, "X") == Builder(map["Default" := 0, "X" := 1], [map[], map[]], Some(0), [0, 1]);
  }

  /** What `LoadConfigLines` leaves behind, as a document. */
  function Load(raws: seq<string>): (doc: map<string, Store>)
    ensures forall n :: n in doc <==> NamedInHeader(Classified(raws), n)
  {
    RegisteredNames(Classified(raws));
    Document(Execute(Start(), Classified(raws)))
  }

  /** `HasSection`: the section exists and holds at least one key. */
  function HasSection(doc: map<string, Store>, name: string): (r: bool)
    ensures r <==> name in doc && exists key :: key in doc[name]
  {
    name in doc && |doc[name]| > 0
  }

  /** After a load, the sections are exactly the names that occur in header lines, and
      `HasSection` holds exactly for those whose section ended up with a key. */
  lemma LoadedSections(raws: seq<string>, name: string)
    ensures name in Load(raws) <==> NamedInHeader(Classified(raws), name)
    ensures HasSection(Load(raws), name) <==>
      NamedInHeader(Classified(raws), name) && exists key :: key in Load(raws)[name]
  {
    RegisteredNames(Classified(raws));
  }

  /** After a load, `HasSection` holds for a name exactly when some assignment line follows
      a header naming it with no other header in between: a section named only by headers
      that no assignment follows stays empty and is not reported. */
  lemma SectionsWithKeys(raws: seq<string>, name: string)
    ensures HasSection(Load(raws), name) <==> AssignedUnder(Classified(raws), name)
  {
    var b := Execute(Start(), Classified(raws));
    ExecuteKeysTraced(Classified(raws));
    if name in b.index {
      assert Load(raws)[name] == b.stores[b.index[name]];
    }
  }

  /** `GetValueOrNull`: the stored value, or nothing when the section or key is absent. */
  function GetValue(doc: map<string, Store>, name: string, key: string): (r: Option<string>)
    ensures r.Some? <==> name in doc && key in doc[name]
    ensures r.Some? ==> r.value == doc[name][key]
  {
    if name in doc && key in doc[name] then Some(doc[name][key]) else None
  }
}
