/** Names written into one message, with or without compression, read back as themselves. */
module DnsRoundTrip {
  import opened Bytes
  import opened DnsName
  import opened DnsTable
  import opened DnsCodec

  /** Every label fits a length byte that is not taken for a pointer. */
  predicate LabelsFit(name: seq<byte>) {
    forall i :: 0 <= i < |Labels(name)| ==> |Labels(name)[i]| < 192
  }

  // ---------------------------------------------------------------- table entries

  /** A table entry points at a label, or at the root, that spells its key. */
  predicate EntryOk(buf: seq<byte>, start: nat, e: Entry) {
    && Writable(e.name) && e.name != [] && e.pos <= OFFSET_MASK
    && start + e.pos < |buf| && buf[start + e.pos] < 192
    && Spells(buf, start, start + e.pos, Labels(e.name))
  }

  lemma EntryGrows(buf: seq<byte>, more: seq<byte>, start: nat, e: Entry)
    requires EntryOk(buf, start, e)
    ensures EntryOk(buf + more, start, e)
  {
    SpellsGrows(buf, more, start, start + e.pos, Labels(e.name));
  }

  /** Entries for names of at most `m` bytes are in order; longer ones may still be under way. */
  predicate TableOk(buf: seq<byte>, start: nat, t: Index, m: int) {
    t.Some? ==> forall i :: 0 <= i < |t.value| && |t.value[i].name| <= m ==> EntryOk(buf, start, t.value[i])
  }

  /** What a write leaves: the old bytes and entries stay, the name is spelled where it was put and
      fills the buffer exactly, and new entries are for names of at most `m` bytes. */
  predicate Extends(buf: seq<byte>, t: Index, w: Written, start: nat, name: seq<byte>, m: int) {
    && w.Written? && buf <= w.buf
    && Spells(w.buf, start, |buf|, Labels(name))
    && Stop(w.buf, |buf|) == Some(|w.buf|)
    && t.Some? == w.t.Some?
    && (t.Some? ==>
          && t.value <= w.t.value
          && forall i :: |t.value| <= i < |w.t.value| ==> |w.t.value[i].name| <= m)
  }

  lemma TableShrinks(buf: seq<byte>, start: nat, t: Index, m: int, k: int)
    requires TableOk(buf, start, t, m) && k <= m
    ensures TableOk(buf, start, t, k)
  {
  }

  lemma TableGrows(buf: seq<byte>, buf': seq<byte>, start: nat, t: Index, m: int)
    requires TableOk(buf, start, t, m) && buf <= buf'
    ensures TableOk(buf', start, t, m)
  {
    assert buf' == buf + buf'[|buf|..];
    if t.Some? {
      forall i | 0 <= i < |t.value| && |t.value[i].name| <= m ensures EntryOk(buf', start, t.value[i]) {
        EntryGrows(buf, buf'[|buf|..], start, t.value[i]);
      }
    }
  }

  // ---------------------------------------------------------------- the writer

  /** What the table knows about a name it finds. */
  lemma HitSpells(buf: seq<byte>, t: Index, name: seq<byte>, start: nat)
    requires TableOk(buf, start, t, |name|) && Lookup(t, name).Some?
    ensures var p := Lookup(t, name).value;
            && p <= OFFSET_MASK && start + p < |buf| && buf[start + p] < 192
            && Spells(buf, start, start + p, Labels(name))
  {
    hide Spells, Labels, Find, Writable, SameCI;
    var p := Lookup(t, name).value;
    var i :| 0 <= i < |t.value| && SameCI(t.value[i].name, name) && t.value[i].pos == p;
    var e := t.value[i];
    SameCILen(e.name, name);
    assert EntryOk(buf, start, e);
    LabelsCI(e.name, name);
    SpellsCI(buf, start, start + p, Labels(e.name), Labels(name));
  }

  lemma PointerSpells(buf: seq<byte>, p: nat, start: nat, ls: seq<seq<byte>>)
    requires p <= OFFSET_MASK && start + p < |buf| && buf[start + p] < 192 && Spells(buf, start, start + p, ls)
    ensures Spells(buf + Pointer(p), start, |buf|, ls)
    ensures Stop(buf + Pointer(p), |buf|) == Some(|buf| + 2)
  {
    hide Spells, Stop;
    var out := buf + Pointer(p);
    SpellsGrows(buf, Pointer(p), start, start + p, ls);
    assert out[|buf|] == 192 + p / 256 && out[|buf| + 1] == p % 256;
    assert out[start + p] == buf[start + p];
    SpellsAtPointer(out, start, |buf|, ls);
  }

  lemma LabelStep(name: seq<byte>)
    requires Good(name) && name != []
    ensures var n := LabelLen(name);
            && n > 0 && Labels(name) != [] && Labels(name)[0] == name[..n]
            && Labels(name)[1..] == if n == |name| then [] else Labels(name[n + 1..])
    ensures LabelsFit(name) ==> LabelLen(name) < 192
    ensures LabelsFit(name) && LabelLen(name) < |name| ==>
              Good(name[LabelLen(name) + 1..]) && LabelsFit(name[LabelLen(name) + 1..])
  {
    LabelsUnfold(name);
    var n := LabelLen(name);
    hide Labels, LabelLen;
    if LabelsFit(name) {
      assert |Labels(name)[0]| < 192;
      if n < |name| {
        var rest := name[n + 1..];
        forall i | 0 <= i < |Labels(rest)| ensures |Labels(rest)[i]| < 192 {
          assert Labels(rest)[i] == Labels(name)[i + 1];
        }
      }
    }
  }

  lemma {:induction false} LabelsUnfold(name: seq<byte>)
    requires Good(name) && name != []
    ensures var n := LabelLen(name);
            && n > 0 && Labels(name) != [] && Labels(name)[0] == name[..n]
            && Labels(name)[1..] == (if n == |name| then [] else Labels(name[n + 1..]))
            && (n < |name| ==> Good(name[n + 1..]))
  {
    GoodHead(name);
    hide Good, LabelLen;
  }

  lemma GoodHead(name: seq<byte>)
    requires Good(name) && name != []
    ensures name[0] != DOT && LabelLen(name) > 0 && (LabelLen(name) < |name| ==> Good(name[LabelLen(name) + 1..]))
  {
  }

  /** A label written before text that spells the rest spells the whole name. */
  lemma LabelSpells(buf: seq<byte>, first: seq<byte>, out: seq<byte>, start: nat, ls: seq<seq<byte>>)
    requires 0 < |first| < 192 && ls != [] && ls[0] == first
    requires buf + [|first|] + first <= out
    requires Spells(out, start, |buf| + 1 + |first|, ls[1..])
    ensures Spells(out, start, |buf|, ls)
    ensures Stop(out, |buf|) == Stop(out, |buf| + 1 + |first|)
  {
    hide Spells, Stop;
    var pre := buf + [|first|] + first;
    assert out[|buf|] == |first| by { assert pre[|buf|] == |first|; }
    assert out[|buf| + 1..|buf| + 1 + |first|] == first by {
      assert pre[|buf| + 1..] == first;
      assert out[..|pre|] == pre;
    }
    SpellsAtLabel(out, start, |buf|, |first|, ls);
  }

  lemma {:induction false} WriteSpells(buf: seq<byte>, t: Index, name: seq<byte>, start: nat, comp: bool)
    requires start <= |buf| && Good(name) && LabelsFit(name) && TableOk(buf, start, t, |name|)
    ensures var w := Write(buf, t, name, start, comp);
            Extends(buf, t, w, start, name, |name|) && TableOk(w.buf, start, w.t, |name|)
    decreases |name|, 1
  {
    hide Spells, Stop, LabelsFit, Good, Labels, Find;
    var hit := Lookup(t, name);
    if hit.Some? && comp {
      HitSpells(buf, t, name, start);
      PointerSpells(buf, hit.value, start, Labels(name));
      TableGrows(buf, buf + Pointer(hit.value), start, t, |name|);
    } else {
      var t' := if hit.Some? then t else Added(t, name, |buf| - start);
      assert TableOk(buf, start, t', |name| - 1);
      WriteLabelSpells(buf, t', name, start, comp);
      var w := WriteLabel(buf, t', name, start, comp);
      TableGrows(buf, w.buf, start, t, |name|);
      OwnEntryOk(buf, t, t', w, name, start);
    }
  }

  /** The entry added for the name itself is in order once the name is written. */
  lemma {:induction false} OwnEntryOk(buf: seq<byte>, t: Index, t': Index, w: Written, name: seq<byte>, start: nat)
    requires start <= |buf| && Good(name) && (t' == t || t' == Added(t, name, |buf| - start))
    requires Extends(buf, t', w, start, name, |name| - 1) && w.buf[|buf|] < 192
    requires TableOk(w.buf, start, w.t, |name| - 1) && TableOk(w.buf, start, t, |name|)
    ensures Extends(buf, t, w, start, name, |name|) && TableOk(w.buf, start, w.t, |name|)
  {
    if t.Some? {
      forall i | 0 <= i < |w.t.value| && |w.t.value[i].name| <= |name| ensures EntryOk(w.buf, start, w.t.value[i]) {
        if i < |t.value| {
          assert w.t.value[i] == t'.value[i] == t.value[i];
        } else if i < |t'.value| {
          assert w.t.value[i] == t'.value[i] == Entry(name, |buf| - start);
        }
      }
    }
  }

  lemma LastLabelSpells(buf: seq<byte>, name: seq<byte>, start: nat)
    requires Good(name) && LabelsFit(name) && name != [] && LabelLen(name) == |name|
    ensures |name| < 192
    ensures var out := buf + [|name|] + name + [0];
            && out[|buf|] == |name|
            && Spells(out, start, |buf|, Labels(name)) && Stop(out, |buf|) == Some(|out|)
  {
    hide Spells, Stop, LabelsFit, Good;
    LabelStep(name);
    var pre := buf + [|name|] + name;
    var out := pre + [0];
    assert out[|pre|] == 0;
    SpellsAtRoot(out, start, |pre|);
    assert name[..|name|] == name;
    LabelSpells(buf, name, out, start, Labels(name));
  }

  lemma {:induction false} WriteLabelSpells(buf: seq<byte>, t: Index, name: seq<byte>, start: nat, comp: bool)
    requires start <= |buf| && Good(name) && LabelsFit(name) && TableOk(buf, start, t, |name| - 1)
    ensures var w := WriteLabel(buf, t, name, start, comp);
            && Extends(buf, t, w, start, name, |name| - 1) && TableOk(w.buf, start, w.t, |name| - 1)
            && w.buf[|buf|] < 192
    decreases |name|, 0
  {
    hide LabelsFit, Find, Spells, Stop, Good, TableOk, Write, Labels, Lookup, Added;
    var n := LabelLen(name);
    var w := WriteLabel(buf, t, name, start, comp);
    if name == [] {
      SpellsAtRoot(w.buf, start, |buf|);
      assert Labels(name) == [] by { RootLabels(); }
      TableGrows(buf, w.buf, start, t, -1);
    } else if n == |name| {
      LastLabelSpells(buf, name, start);
      TableGrows(buf, w.buf, start, t, |name| - 1);
    } else {
      LabelStep(name);
      var first, rest := name[..n], name[n + 1..];
      var pre := buf + [n] + first;
      TableGrows(buf, pre, start, t, |name| - 1);
      TableShrinks(pre, start, t, |name| - 1, |rest|);
      WriteSpells(pre, t, rest, start, comp);
      FirstLabelSpells(buf, t, name, start, w);
    }
  }

  /** A label in front of a name that has been written. */
  lemma FirstLabelSpells(buf: seq<byte>, t: Index, name: seq<byte>, start: nat, w: Written)
    requires start <= |buf| && Good(name) && LabelsFit(name) && name != [] && LabelLen(name) < |name|
    requires LabelLen(name) < 192
    requires var n := LabelLen(name);
             var pre, rest := buf + [n] + name[..n], name[n + 1..];
             && TableOk(pre, start, t, |name| - 1)
             && Extends(pre, t, w, start, rest, |rest|) && TableOk(w.buf, start, w.t, |rest|)
    ensures Extends(buf, t, w, start, name, |name| - 1) && TableOk(w.buf, start, w.t, |name| - 1)
    ensures w.buf[|buf|] < 192
  {
    hide LabelsFit, Find, Spells, Stop, Good, TableOk, Labels;
    LabelStep(name);
    var n := LabelLen(name);
    var first, rest := name[..n], name[n + 1..];
    var pre := buf + [n] + first;
    RestEntriesOk(pre, t, w, start, |name|, rest);
    LabelSpells(buf, first, w.buf, start, Labels(name));
    assert w.buf[|buf|] == n by { assert pre[|buf|] == n; }
    assert buf <= w.buf by { assert buf <= pre; }
  }

  lemma RootLabels()
    ensures Labels([]) == [] && Labels([DOT]) == []
  {
  }

  lemma RestEntriesOk(pre: seq<byte>, t: Index, w: Written, start: nat, m: int, rest: seq<byte>)
    requires TableOk(pre, start, t, m - 1) && |rest| < m
    requires Extends(pre, t, w, start, rest, |rest|) && TableOk(w.buf, start, w.t, |rest|)
    ensures TableOk(w.buf, start, w.t, m - 1)
  {
    TableGrows(pre, w.buf, start, t, m - 1);
    if t.Some? {
      forall i | 0 <= i < |w.t.value| && |w.t.value[i].name| <= m - 1 ensures EntryOk(w.buf, start, w.t.value[i]) {
        if i < |t.value| { assert w.t.value[i] == t.value[i]; }
      }
    }
  }

  lemma EncodeSpells(buf: seq<byte>, t: Index, name: seq<byte>, start: nat, comp: bool)
    requires start <= |buf| && Writable(name) && LabelsFit(name) && AllOk(buf, start, t)
    ensures var w := Encode(buf, t, name, start, comp);
            Extends(buf, t, w, start, name, |name|) && AllOk(w.buf, start, w.t)
  {
    hide Spells, Stop, LabelsFit, Good, Labels, Find;
    var w := Encode(buf, t, name, start, comp);
    AllIsTable(buf, start, t, |name|);
    if name == [DOT] {
      RootLabels();
      if comp && Lookup(t, name).Some? {
        HitSpells(buf, t, name, start);
        PointerSpells(buf, Lookup(t, name).value, start, []);
      } else {
        SpellsAtRoot(w.buf, start, |buf|);
      }
    } else {
      WriteSpells(buf, t, name, start, comp);
    }
    NewEntriesOk(buf, t, w, name, start);
  }

  /** All entries are in order, whatever the length of their names. */
  predicate AllOk(buf: seq<byte>, start: nat, t: Index) {
    t.Some? ==> forall i :: 0 <= i < |t.value| ==> EntryOk(buf, start, t.value[i])
  }

  lemma AllIsTable(buf: seq<byte>, start: nat, t: Index, m: int)
    requires AllOk(buf, start, t)
    ensures TableOk(buf, start, t, m)
  {
  }

  lemma NewEntriesOk(buf: seq<byte>, t: Index, w: Written, name: seq<byte>, start: nat)
    requires start <= |buf| && AllOk(buf, start, t) && Extends(buf, t, w, start, name, |name|)
    requires TableOk(w.buf, start, w.t, |name|)
          || (name == [DOT] && w.buf == buf + [0] && (w.t == t || w.t == Added(t, name, |buf| - start)))
          || w.t == t
    ensures AllOk(w.buf, start, w.t)
  {
    hide Spells, Stop, Labels;
    if t.Some? {
      forall i | 0 <= i < |w.t.value| ensures EntryOk(w.buf, start, w.t.value[i]) {
        if i < |t.value| {
          assert w.buf == buf + w.buf[|buf|..];
          assert w.t.value[i] == t.value[i];
          EntryGrows(buf, w.buf[|buf|..], start, t.value[i]);
        }
      }
    }
  }

  // ---------------------------------------------------------------- the reader

  /** The reader's text after taking one more label, and after taking a whole list. */
  function Step(text: seq<byte>, l: seq<byte>): seq<byte> {
    text + (if text == [] then [] else [DOT]) + l
  }

  function Joined(text: seq<byte>, ls: seq<seq<byte>>): seq<byte> {
    if ls == [] then text else Step(text, Text(ls))
  }

  lemma JoinStep(text: seq<byte>, ls: seq<seq<byte>>)
    requires ls != [] && ls[0] != []
    ensures Joined(Step(text, ls[0]), ls[1..]) == Joined(text, ls)
  {
    var sep := if text == [] then [] else [DOT];
    if |ls| > 1 {
      assert text + sep + ls[0] + [DOT] + Text(ls[1..]) == text + sep + (ls[0] + [DOT] + Text(ls[1..]));
    }
  }

  lemma JoinedCI(a: seq<byte>, b: seq<byte>, ls: seq<seq<byte>>)
    requires SameCI(a, b)
    ensures SameCI(Joined(a, ls), Joined(b, ls))
  {
    if ls != [] {
      SameCIConcat(a, b, if a == [] then [] else [DOT], if b == [] then [] else [DOT]);
      SameCIConcat(a + if a == [] then [] else [DOT], b + if b == [] then [] else [DOT], Text(ls), Text(ls));
    }
  }

  lemma SameCITrans(a: seq<byte>, b: seq<byte>, c: seq<byte>)
    requires SameCI(a, b) && SameCI(b, c)
    ensures SameCI(a, c)
  {
  }

  /** Reading where labels are spelled yields their text up to case and stops where they end. */
  lemma {:induction false} DecodeSpells(buf: seq<byte>, start: nat, at: nat, ls: seq<seq<byte>>,
                                        text: seq<byte>, jumps: nat, back: Option<nat>)
    requires Spells(buf, start, at, ls)
    requires jumps + |ls| + Bit(buf[at] >= 192) <= 256 && |Joined(text, ls)| <= 255 && |text| <= 255
    ensures Stop(buf, at).Some?
    ensures var d := DecodeFrom(buf, start, at, text, jumps, back);
            && d.Name? && SameCI(d.text, Joined(text, ls))
            && d.pos == if back.Some? then back.value else Stop(buf, at).value
    decreases |ls|, at
  {
    hide SameCI, Joined;
    var len := buf[at];
    if len >= 192 {
      DecodeSpells(buf, start, Target(buf, start, at), ls, text, jumps + 1, if back.Some? then back else Some(at + 2));
    } else if len > 0 {
      var l := buf[at + 1..at + 1 + len];
      DecodeLabel(text, l, ls);
      DecodeSpells(buf, start, at + 1 + len, ls[1..], Step(text, l), jumps, back);
      SameCITrans(DecodeFrom(buf, start, at, text, jumps, back).text, Joined(Step(text, l), ls[1..]), Joined(text, ls));
    } else {
      JoinedNothing(text);
    }
  }

  lemma JoinedNothing(text: seq<byte>)
    ensures SameCI(text, Joined(text, []))
  {
    SameCIRefl(text);
  }

  lemma DecodeLabel(text: seq<byte>, l: seq<byte>, ls: seq<seq<byte>>)
    requires ls != [] && SameCI(l, ls[0]) && l != [] && |Joined(text, ls)| <= 255 && |l| < 192
    ensures |l| + |text| + 2 <= 256 && |Step(text, l)| <= 255
    ensures SameCI(Joined(Step(text, l), ls[1..]), Joined(text, ls)) && |Joined(Step(text, l), ls[1..])| <= 255
  {
    hide SameCI;
    assert |l| == |ls[0]| by { SameCILen(l, ls[0]); }
    JoinStep(text, ls);
    var sep := if text == [] then [] else [DOT];
    SameCIRefl(text + sep);
    SameCIConcat(text + sep, text + sep, l, ls[0]);
    JoinedCI(Step(text, l), Step(text, ls[0]), ls[1..]);
    SameCILen(Joined(Step(text, l), ls[1..]), Joined(text, ls));
    assert |Text(ls)| >= |ls[0]|;
  }

  lemma SameCILen(a: seq<byte>, b: seq<byte>)
    requires SameCI(a, b)
    ensures |a| == |b|
  {
  }

  lemma SameCIRefl(a: seq<byte>)
    ensures SameCI(a, a)
  {
  }

  /** A text of n labels has at least 2n - 1 characters. */
  lemma {:induction false} TextLength(buf: seq<byte>, start: nat, at: nat, ls: seq<seq<byte>>)
    requires Spells(buf, start, at, ls)
    ensures 2 * |ls| <= |Text(ls)| + 1
    decreases |ls|, at
  {
    if buf[at] >= 192 {
      TextLength(buf, start, Target(buf, start, at), ls);
    } else if buf[at] > 0 {
      TextLength(buf, start, at + 1 + buf[at], ls[1..]);
    }
  }

  /** A name that was put into a message reads back as itself. */
  predicate ReadsBack(buf: seq<byte>, start: nat, at: nat, name: seq<byte>, end: nat) {
    var d := Decode(buf, start, at);
    d.Name? && SameCI(d.text, Stripped(name)) && d.pos == end
  }

  lemma SpelledReadsBack(buf: seq<byte>, start: nat, at: nat, name: seq<byte>, end: nat)
    requires Writable(name) && |Stripped(name)| <= 255
    requires Spells(buf, start, at, Labels(name)) && Stop(buf, at) == Some(end)
    ensures ReadsBack(buf, start, at, name, end)
  {
    hide Spells, Stop;
    var ls := Labels(name);
    TextOfLabels(name);
    TextLength(buf, start, at, ls);
    assert Joined([], ls) == Text(ls) by { assert [] + [] + Text(ls) == Text(ls); }
    assert at < |buf| by { SpelledInRange(buf, start, at, ls); }
    DecodeSpells(buf, start, at, ls, [], 0, None);
  }

  lemma SpelledInRange(buf: seq<byte>, start: nat, at: nat, ls: seq<seq<byte>>)
    requires Spells(buf, start, at, ls)
    ensures at < |buf|
  {
  }
}
