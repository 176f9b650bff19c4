/**
  The line classifier of `IniFile.LoadConfigLines`. The two regular expressions of the
  original (the header pattern `\[(.*)\]`, unanchored, and the assignment pattern
  `^(.*?)\s*([+|&]?=)\s*(.*)$`) are replaced by a hand-written scanner; each scanner
  function is proved to return what the pattern's leftmost, greedy (or lazy) match captures.
 */
module LineScanner {
  import opened Wrappers
  import opened Text

  /** The four assignment operators `=`, `+=`, `|=` and `&=`. */
  datatype Op = Assign | PlusAssign | BarAssign | AmpAssign

  function OpText(op: Op): string
  {
    match op
    case Assign => "="
    case PlusAssign => "+="
    case BarAssign => "|="
    case AmpAssign => "&="
  }

  /** The characters `[+|&]` that may precede `=` in an operator. */
  predicate IsOpPrefix(c: char)
  {
    c == '+' || c == '|' || c == '&'
  }

  /** The operator token `[+|&]?=` that starts at position `o` of `s`, if there is one
      (the optional prefix character is taken whenever it is present, as the greedy `?` does). */
  function OpAt(s: string, o: nat): (r: Option<Op>)
    ensures r.Some? ==> o + |OpText(r.value)| <= |s|
    ensures r.Some? <==>
      (o < |s| && s[o] == '=') || (o + 1 < |s| && IsOpPrefix(s[o]) && s[o + 1] == '=')
  {
    if o < |s| && s[o] == '=' then Some(Assign)
    else if o + 1 < |s| && s[o + 1] == '=' then
      if s[o] == '+' then Some(PlusAssign)
      else if s[o] == '|' then Some(BarAssign)
      else if s[o] == '&' then Some(AmpAssign)
      else None
    else None
  }

  /** The text at position `o` is the operator's own spelling. */
  lemma OpAtSpelling(s: string, o: nat)
    requires OpAt(s, o).Some?
    ensures s[o..o + |OpText(OpAt(s, o).value)|] == OpText(OpAt(s, o).value)
  {
  }

  /** The assignment pattern can match `s` with its lazy key group `(.*?)` ending at `k`,
      whitespace from `k` up to `o`, and the operator group starting at `o`. (The trailing
      `\s*(.*)$` matches whatever follows.) */
  ghost predicate KeyOpSplit(s: string, k: int, o: int)
  {
    0 <= k <= o < |s| && SpaceBetween(s, k, o) && OpAt(s, o).Some?
  }

  datatype KeyValue = KeyValue(key: string, op: Op, value: string)

  /** What the assignment pattern captures in `s` for the split at `|kv.key|` and `o`:
      the key text, the operator, and the rest of the line after the whitespace that
      follows the operator (the greedy `\s*`). */
  ghost predicate Captures(s: string, o: int, kv: KeyValue)
  {
    && KeyOpSplit(s, |kv.key|, o)
    && s[..|kv.key|] == kv.key
    && OpAt(s, o) == Some(kv.op)
    && kv.value == s[SkipSpace(s, o + |OpText(kv.op)|)..]
  }

  /** Where the operator token of the first `=` of `s` starts: one character earlier when
      that `=` is preceded by `+`, `|` or `&`. */
  function OpStart(s: string): (o: nat)
    requires '=' in s
    ensures OpAt(s, o).Some?
    ensures o + |OpText(OpAt(s, o).value)| == IndexOf(s, '=') + 1
  {
    var p := IndexOf(s, '=');
    if p > 0 && IsOpPrefix(s[p - 1]) then p - 1 else p
  }

  /** The assignment pattern, as a scanner: it finds the first `=`, takes the operator that
      ends there, the text before it less trailing whitespace as the key, and the rest of
      the line less leading whitespace as the value. It matches exactly the lines that
      contain `=`; the key never holds `=` or ends in whitespace, and the value never
      starts with whitespace. */
  function MatchKeyValue(s: string): (r: Option<KeyValue>)
    ensures r.Some? <==> '=' in s
    ensures r.Some? ==> '=' !in r.value.key
    ensures r.Some? ==> r.value.key == [] || !IsSpace(r.value.key[|r.value.key| - 1])
    ensures r.Some? ==> r.value.value == [] || !IsSpace(r.value.value[0])
  {
    if '=' !in s then None
    else
      var o := OpStart(s);
      var key := s[..SkipSpaceBack(s, 0, o)];
      var value := s[SkipSpace(s, IndexOf(s, '=') + 1)..];
      Some(KeyValue(key, OpAt(s, o).value, value))
  }

  /** The key is `String.TrimEnd` of the text before the operator, and the value is
      `String.TrimStart` of the text after it. */
  lemma KeyValueTrims(s: string)
    requires '=' in s
    ensures MatchKeyValue(s).value.key == TrimEnd(s[..OpStart(s)])
    ensures MatchKeyValue(s).value.value == TrimStart(s[IndexOf(s, '=') + 1..])
  {
    var o, p := OpStart(s), IndexOf(s, '=');
    var kv := MatchKeyValue(s).value;
    assert kv.key == s[..SkipSpaceBack(s, 0, o)] && kv.value == s[SkipSpace(s, p + 1)..];
    TrimEndOfPrefix(s, o);
    TrimStartOfSuffix(s, p + 1);
  }

  lemma TrimEndOfPrefix(s: string, o: nat)
    requires o <= |s|
    ensures TrimEnd(s[..o]) == s[..SkipSpaceBack(s, 0, o)]
  {
    var t := s[..o];
    var b, b' := SkipSpaceBack(s, 0, o), SkipSpaceBack(t, 0, |t|);
    assert forall i :: 0 <= i < o ==> t[i] == s[i];
    assert b' == b;
  }

  lemma TrimStartOfSuffix(s: string, a: nat)
    requires a <= |s|
    ensures TrimStart(s[a..]) == s[SkipSpace(s, a)..]
  {
    var t := s[a..];
    var b, b' := SkipSpace(s, a), SkipSpace(t, 0);
    assert forall i :: 0 <= i < |t| ==> t[i] == s[a + i];
    assert a + b' == b;
  }

  /** When it matches, the scanner returns what the pattern captures for the split at the
      first operator. */
  lemma KeyValueCaptures(s: string)
    requires '=' in s
    ensures Captures(s, OpStart(s), MatchKeyValue(s).value)
  {
  }

  /** The pattern can match exactly when the scanner does, and the scanner's key is the
      shortest one the lazy `(.*?)` could settle on. */
  lemma KeyValueShortest(s: string, k: int, o: int)
    requires KeyOpSplit(s, k, o)
    ensures MatchKeyValue(s).Some?
    ensures |MatchKeyValue(s).value.key| <= k
  {
    KeyIsShortest(s, IndexOf(s, '='), OpStart(s), |MatchKeyValue(s).value.key|, k, o);
  }

  /** No split whose key is shorter than the one the scanner picks can match. */
  lemma KeyIsShortest(s: string, p: nat, o: nat, k: nat, k': int, o': int)
    requires p < |s| && s[p] == '=' && forall i :: 0 <= i < p ==> s[i] != '='
    requires o == if p > 0 && IsOpPrefix(s[p - 1]) then p - 1 else p
    requires k == SkipSpaceBack(s, 0, o)
    requires KeyOpSplit(s, k', o')
    ensures k <= k'
  {
    if k > 0 {
      // The operator token of the other split reaches the first '=' at the earliest.
      assert o' >= p - 1;
      assert o' == p - 1 ==> o == p - 1;
      // A character that is not whitespace and lies before that token, at or after k - 1.
      var m := if o' == p - 1 || (o' == p && o == p) then k - 1 else if o' == p then p - 1 else p;
      assert !IsSpace(s[m]) && k - 1 <= m < o';
      assert m < k';
    }
  }

  /** A pair `[` ... `]`, the opening bracket at `i` and the closing one after it at `j`. */
  ghost predicate BracketPair(s: string, i: int, j: int)
  {
    0 <= i < j < |s| && s[i] == '[' && s[j] == ']'
  }

  /** The header pattern `\[(.*)\]`, unanchored: it matches exactly the lines with a `[`
      followed somewhere by a `]`, and captures the text from the first `[` (leftmost
      match) to the last `]` (greedy `.*`). */
  function MatchSection(s: string): (r: Option<string>)
    ensures r.Some? <==> exists i, j :: BracketPair(s, i, j)
    ensures r.Some? ==>
      exists i, j :: BracketPair(s, i, j) && r.value == s[i + 1..j] && '[' !in s[..i] && ']' !in s[j + 1..]
  {
    var i := IndexOf(s, '[');
    var j := LastIndexOf(s, ']');
    if i < j then
      assert BracketPair(s, i, j);
      assert '[' !in s[..i] && ']' !in s[j + 1..];
      Some(s[i + 1..j])
    else
      None
  }

  /** Each piece trimmed. */
  function TrimAll(pieces: seq<string>): (names: seq<string>)
    ensures |names| == |pieces|
    ensures forall i :: 0 <= i < |pieces| ==> names[i] == Trim(pieces[i])
  {
    seq(|pieces|, i requires 0 <= i < |pieces| => Trim(pieces[i]))
  }

  /** The section names of a header: the captured text split on `,`, each piece trimmed. */
  function SectionNames(group: string): (names: seq<string>)
    ensures |names| == |Split(group, ',')| >= 1
    ensures forall i :: 0 <= i < |names| ==> names[i] == Trim(Split(group, ',')[i])
    ensures forall i :: 0 <= i < |names| ==> ',' !in names[i] && Unpadded(names[i])
  {
    var pieces := Split(group, ',');
    assert forall i :: 0 <= i < |pieces| ==> ',' !in Trim(pieces[i]) by {
      forall i | 0 <= i < |pieces| ensures ',' !in Trim(pieces[i]) {
        TrimInside(pieces[i], ',');
      }
    }
    TrimAll(pieces)
  }

  /** The kinds of line `LoadConfigLines` tells apart. */
  datatype Line =
    | Comment
    | Blank
    | Header(names: seq<string>)
    | Assignment(key: string, op: Op, value: string)
    | Unrecognised

  /** The classification of one raw line, in the order the loop body tests it: comment,
      blank, header, assignment; anything else is skipped. Which kind a line is depends on
      the trimmed line alone; the header test runs before the assignment test, so a line
      holding both a bracket pair and `=` is a header. */
  function Classify(raw: string): (l: Line)
    ensures var line := Trim(raw);
      && (l == Comment <==> line != [] && line[0] == ';')
      && (l == Blank <==> line == [])
      && (l.Header? <==> line != [] && line[0] != ';' && exists i, j :: BracketPair(line, i, j))
      && (l.Assignment? <==> line != [] && line[0] != ';' && (forall i, j :: !BracketPair(line, i, j)) && '=' in line)
      && (l == Unrecognised <==> line != [] && line[0] != ';' && (forall i, j :: !BracketPair(line, i, j)) && '=' !in line)
    ensures l.Header? ==> l.names == SectionNames(MatchSection(Trim(raw)).value)
    ensures l.Assignment? ==> MatchKeyValue(Trim(raw)) == Some(KeyValue(l.key, l.op, l.value))
  {
    var line := Trim(raw);
    if |line| > 0 && line[0] == ';' then Comment
    else if |line| == 0 then Blank
    else match MatchSection(line)
      case Some(group) => Header(SectionNames(group))
      case None =>
        match MatchKeyValue(line)
        case Some(kv) => Assignment(kv.key, kv.op, kv.value)
        case None => Unrecognised
  }

  /** The branches of `Classify`, one at a time, in the order it tests them. */
  lemma ClassifyComment(raw: string)
    requires |Trim(raw)| > 0 && Trim(raw)[0] == ';'
    ensures Classify(raw) == Comment
  {
  }

  lemma ClassifyBlank(raw: string)
    requires |Trim(raw)| == 0
    ensures Classify(raw) == Blank
  {
  }

  lemma ClassifyHeader(raw: string, group: string)
    requires |Trim(raw)| > 0 && Trim(raw)[0] != ';' && MatchSection(Trim(raw)) == Some(group)
    ensures Classify(raw) == Header(TrimAll(Split(group, ',')))
  {
  }

  lemma ClassifyAssignment(raw: string, kv: KeyValue)
    requires |Trim(raw)| > 0 && Trim(raw)[0] != ';' && MatchSection(Trim(raw)) == None
    requires MatchKeyValue(Trim(raw)) == Some(kv)
    ensures Classify(raw) == Assignment(kv.key, kv.op, kv.value)
  {
  }

  lemma ClassifyUnrecognised(raw: string)
    requires |Trim(raw)| > 0 && Trim(raw)[0] != ';' && MatchSection(Trim(raw)) == None
    requires MatchKeyValue(Trim(raw)) == None
    ensures Classify(raw) == Unrecognised
  {
  }

  /** A captured assignment is the key, whitespace, the operator, whitespace and the value. */
  lemma CapturesShape(s: string, o: int, kv: KeyValue)
    requires Captures(s, o, kv)
    ensures exists w1, w2 :: AllSpace(w1) && AllSpace(w2) && s == kv.key + w1 + OpText(kv.op) + w2 + kv.value
  {
    var k, n := |kv.key|, |OpText(kv.op)|;
    var v := SkipSpace(s, o + n);
    SpaceRun(s, k, o);
    SpaceRun(s, o + n, v);
    OpAtSpelling(s, o);
    var w1, w2 := s[k..o], s[o + n..v];
    Cut(s, k, o, o + n, v, kv.key, w1, OpText(kv.op), w2, kv.value);
    assert AllSpace(w1) && AllSpace(w2) && s == kv.key + w1 + OpText(kv.op) + w2 + kv.value;
  }

  /** `s` is the concatenation of its pieces at four cut points. */
  lemma Cut(s: string, a: nat, b: nat, c: nat, d: nat, p1: string, p2: string, p3: string, p4: string, p5: string)
    requires a <= b <= c <= d <= |s|
    requires p1 == s[..a] && p2 == s[a..b] && p3 == s[b..c] && p4 == s[c..d] && p5 == s[d..]
    ensures s == p1 + p2 + p3 + p4 + p5
  {
    assert s[..b] == s[..a] + s[a..b];
    assert s[..c] == s[..b] + s[b..c];
    assert s[..d] == s[..c] + s[c..d];
    assert s == s[..d] + s[d..];
  }

  /** An assignment line is its key, whitespace, the operator, whitespace and the value, in
      that order; the key is unpadded and free of `=`, and the value has no whitespace at
      either end. */
  lemma AssignmentShape(raw: string)
    requires Classify(raw).Assignment?
    ensures var l := Classify(raw);
      && '=' !in l.key && Unpadded(l.key) && Unpadded(l.value)
      && exists w1, w2 :: AllSpace(w1) && AllSpace(w2) && Trim(raw) == l.key + w1 + OpText(l.op) + w2 + l.value
  {
    var line := Trim(raw);
    var kv := MatchKeyValue(line).value;
    assert Classify(raw) == Assignment(kv.key, kv.op, kv.value);
    KeyValueCaptures(line);
    CapturesShape(line, OpStart(line), kv);
    if kv.key != [] {
      assert kv.key[0] == line[0];
    }
    if kv.value != [] {
      assert kv.value[|kv.value| - 1] == line[|line| - 1];
    }
  }
}
