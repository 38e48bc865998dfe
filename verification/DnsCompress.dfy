/** How far names are compressed: a name, or the tail of one, that has been written before is not
    written again. */
module DnsCompress {
  import opened Bytes
  import opened DnsName
  import opened DnsTable
  import opened DnsCodec
  import opened DnsRoundTrip
  import opened DnsMessage

  // ---------------------------------------------------------------- tails of a name

  /** A label of the name starts at `p`. */
  predicate Starts(name: seq<byte>, p: nat)
    ensures Starts(name, p) ==> p < |name|
  {
    p < |name| && (p == 0 || name[p - 1] == DOT)
  }

  /** The tails of a name are itself and those of the rest after its first label. */
  lemma {:induction false} StartsTurn(name: seq<byte>, p: nat)
    requires name != []
    ensures var n := LabelLen(name);
            Starts(name, p) <==> p == 0 || (n < |name| && p >= n + 1 && Starts(name[n + 1..], p - (n + 1)))
  {
    hide LabelLen;
    var n := LabelLen(name);
    if 0 < p <= n {
      assert name[p - 1] != DOT;
    } else if n + 1 < p < |name| {
      assert name[n + 1..][p - (n + 1) - 1] == name[p - 1];
    }
  }

  lemma TailOfTail(name: seq<byte>, n: nat, p: nat)
    requires n <= p <= |name|
    ensures name[n..][p - n..] == name[p..]
  {
  }

  // ---------------------------------------------------------------- what the table knows

  predicate Has(es: seq<Entry>, x: seq<byte>) {
    exists i :: 0 <= i < |es| && SameCI(es[i].name, x)
  }

  /** The table has a name equal to x up to case. */
  predicate Known(t: Index, x: seq<byte>) {
    t.Some? && Has(t.value, x)
  }

  lemma LookupKnown(t: Index, x: seq<byte>)
    ensures Lookup(t, x).Some? <==> Known(t, x)
  {
    hide SameCI;
  }

  lemma HasMore(es: seq<Entry>, fs: seq<Entry>, x: seq<byte>)
    requires es <= fs && Has(es, x)
    ensures Has(fs, x)
  {
    hide SameCI;
    var i :| 0 <= i < |es| && SameCI(es[i].name, x);
    assert fs[i] == es[i];
  }

  /** A name of another length is as well known after an addition as before it. */
  lemma AddedOther(t: Index, name: seq<byte>, pos: nat, x: seq<byte>)
    requires |x| != |name|
    ensures Known(Added(t, name, pos), x) <==> Known(t, x)
  {
    if t.Some? {
      var es := t.value + [Entry(name, pos)];
      if Has(t.value, x) { HasMore(t.value, es, x); }
      if Has(es, x) {
        var i :| 0 <= i < |es| && SameCI(es[i].name, x);
        assert i < |t.value| && es[i] == t.value[i];
      }
    }
  }

  // ---------------------------------------------------------------- how long a written name is

  /** Where the longest tail that the table knows begins. */
  function Hit(t: Index, name: seq<byte>): (r: Option<nat>)
    ensures r.Some? ==> r.value < |name|
  {
    if name == [] then None
    else if Known(t, name) then Some(0)
    else
      var n := LabelLen(name);
      var rest := if n == |name| then None else Hit(t, name[n + 1..]);
      if rest.None? then None else Some(n + 1 + rest.value)
  }

  /** That tail is known and no longer one is. */
  predicate Longest(t: Index, name: seq<byte>, r: Option<nat>) {
    && (r.Some? ==> Starts(name, r.value) && Known(t, name[r.value..]))
    && forall p :: 0 <= p < (if r.Some? then r.value else |name|) && Starts(name, p) ==> !Known(t, name[p..])
  }

  lemma {:induction false} HitExactly(t: Index, name: seq<byte>)
    ensures Longest(t, name, Hit(t, name))
    decreases |name|
  {
    hide Known, LabelLen, Hit;
    if name == [] {
      NoHit(t);
    } else {
      HitUnfold(t, name);
      var n := LabelLen(name);
      assert name[0..] == name;
      if !Known(t, name) {
        if n < |name| { HitExactly(t, name[n + 1..]); }
        HitTurn(t, name, if n == |name| then None else Hit(t, name[n + 1..]));
      } else {
        assert Starts(name, 0);
      }
    }
  }

  lemma {:induction false} HitTurn(t: Index, name: seq<byte>, rest: Option<nat>)
    requires name != [] && !Known(t, name)
    requires var n := LabelLen(name);
             if n == |name| then rest == None else Longest(t, name[n + 1..], rest)
    ensures Longest(t, name, if rest.None? then None else Some(LabelLen(name) + 1 + rest.value))
  {
    hide LabelLen, Known, Starts;
    var n := LabelLen(name);
    if rest.Some? {
      StartsTurn(name, n + 1 + rest.value);
      TailOfTail(name, n + 1, n + 1 + rest.value);
    }
    var r := if rest.None? then None else Some(n + 1 + rest.value);
    forall p | 0 <= p < (if r.Some? then r.value else |name|) && Starts(name, p) ensures !Known(t, name[p..]) {
      StartsTurn(name, p);
      if p == 0 {
        assert name[0..] == name;
      } else {
        TailOfTail(name, n + 1, p);
      }
    }
  }

  lemma {:induction false} HitUnfold(t: Index, name: seq<byte>)
    requires name != []
    ensures var n := LabelLen(name);
            Hit(t, name) == if Known(t, name) then Some(0)
                            else if n == |name| || Hit(t, name[n + 1..]).None? then None
                            else Some(n + 1 + Hit(t, name[n + 1..]).value)
  {
    hide Known, LabelLen, Starts;
  }

  lemma {:induction false} HitAdded(t: Index, big: seq<byte>, pos: nat, name: seq<byte>)
    requires |name| < |big|
    ensures Hit(Added(t, big, pos), name) == Hit(t, name)
    decreases |name|
  {
    hide Known, Added, LabelLen, Starts, Hit;
    var t' := Added(t, big, pos);
    if name == [] {
      NoHit(t);
      NoHit(t');
    } else {
      HitUnfold(t, name);
      HitUnfold(t', name);
      AddedOther(t, big, pos, name);
      var n := LabelLen(name);
      if n < |name| { HitAdded(t, big, pos, name[n + 1..]); }
    }
  }

  lemma NoHit(t: Index)
    ensures Hit(t, []) == None
  {
  }

  /** The length of a name written without compression: a byte before each label and one at the end. */
  function InFull(name: seq<byte>): nat {
    |Stripped(name)| + if name == [] || name == [DOT] then 1 else 2
  }

  /** The bytes a name takes: the labels before the longest known tail and a pointer, or all of it. */
  function Size(t: Index, name: seq<byte>, comp: bool): nat {
    var h := Hit(t, name);
    if comp && h.Some? then h.value + 2 else InFull(name)
  }

  lemma {:induction false} InFullTurn(name: seq<byte>)
    requires Good(name) && name != []
    ensures var n := LabelLen(name);
            InFull(name) == if n == |name| then n + 2 else n + 1 + InFull(name[n + 1..])
  {
    GoodTurn(name);
    var n := LabelLen(name);
    if n == |name| {
      NoDot(name);
    } else {
      var rest := name[n + 1..];
      assert name == name[..n] + [DOT] + rest;
      if rest == [] {
        assert Stripped(name) == name[..n];
      } else {
        GoodTurn(rest);
        StrippedTurn(name[..n], rest);
      }
    }
  }

  lemma SizeTurn(t: Index, name: seq<byte>, comp: bool)
    requires Good(name) && name != [] && !(comp && Known(t, name))
    ensures var n := LabelLen(name);
            Size(t, name, comp) == if n == |name| then n + 2 else n + 1 + Size(t, name[n + 1..], comp)
  {
    hide Known, LabelLen, Good, InFull, Hit, Starts;
    HitUnfold(t, name);
    InFullTurn(name);
  }

  lemma SizeAdded(t: Index, big: seq<byte>, pos: nat, name: seq<byte>, comp: bool)
    requires |name| < |big|
    ensures Size(Added(t, big, pos), name, comp) == Size(t, name, comp)
  {
    hide Hit, Added;
    HitAdded(t, big, pos, name);
  }

  // ---------------------------------------------------------------- one name

  /** How much of a name is written label by label. */
  function InPlace(t: Index, name: seq<byte>, comp: bool): (n: nat)
    ensures n <= |name|
  {
    var h := Hit(t, name);
    if comp && h.Some? then h.value else |name|
  }

  /** The entry for a tail of a name written at offset `o`. */
  predicate OwnEntry(e: Entry, name: seq<byte>, o: nat, limit: nat) {
    && o <= e.pos <= OFFSET_MASK && e.pos - o < limit
    && Starts(name, e.pos - o) && e.name == name[e.pos - o..]
  }

  /** What the table learns from a name written at offset `o`: each tail that begins before `limit` and
      can be pointed at, and nothing else. */
  predicate Recorded(t: Index, wt: Index, name: seq<byte>, o: nat, limit: nat) {
    && t.Some? == wt.Some?
    && (t.Some? ==>
          && t.value <= wt.value
          && (forall i :: |t.value| <= i < |wt.value| ==> OwnEntry(wt.value[i], name, o, limit))
          && forall p :: 0 <= p < limit && Starts(name, p) && o + p <= OFFSET_MASK ==> Known(wt, name[p..]))
  }

  lemma InPlaceTurn(t: Index, t': Index, name: seq<byte>, pos: nat, comp: bool)
    requires name != [] && !(comp && Known(t, name)) && (t' == t || t' == Added(t, name, pos))
    requires LabelLen(name) < |name|
    ensures var n := LabelLen(name);
            InPlace(t, name, comp) == n + 1 + InPlace(t', name[n + 1..], comp)
  {
    hide Known, LabelLen, Hit, Added, Starts;
    HitUnfold(t, name);
    var rest := name[LabelLen(name) + 1..];
    HitAdded(t, name, pos, rest);
  }

  lemma {:induction false} RecordedFirst(t: Index, name: seq<byte>, o: nat, comp: bool)
    requires name != [] && !(comp && Known(t, name))
    ensures var t' := if Known(t, name) then t else Added(t, name, o);
            && Recorded(t, t', name, o, 1)
  {
    hide LabelLen, SameCI;
    var t' := if Known(t, name) then t else Added(t, name, o);
    assert name[0..] == name;
    if t.Some? && o <= OFFSET_MASK {
      assert Known(t', name) by {
        if !Known(t, name) { assert t'.value[|t.value|].name == name; SameCIRefl(name); }
      }
    }
  }

  lemma {:induction false} OwnTail(e: Entry, name: seq<byte>, o: nat, limit: nat, n: nat)
    requires n == LabelLen(name) < |name| && OwnEntry(e, name[n + 1..], o + n + 1, limit)
    ensures OwnEntry(e, name, o, n + 1 + limit)
  {
    hide LabelLen, Starts;
    var p := e.pos - o;
    StartsTurn(name, p);
    TailOfTail(name, n + 1, p);
  }

  /** The tails of a name are itself and the tails of its rest. */
  lemma {:induction false} RecordedTurn(t: Index, t': Index, wt: Index, name: seq<byte>, o: nat, limit: nat)
    requires name != [] && LabelLen(name) < |name| && Recorded(t, t', name, o, 1)
    requires Recorded(t', wt, name[LabelLen(name) + 1..], o + LabelLen(name) + 1, limit)
    ensures Recorded(t, wt, name, o, LabelLen(name) + 1 + limit)
  {
    hide LabelLen, Starts, Known, OwnEntry;
    var n := LabelLen(name);
    if t.Some? {
      forall i | |t.value| <= i < |wt.value| ensures OwnEntry(wt.value[i], name, o, n + 1 + limit) {
        if i < |t'.value| {
          assert wt.value[i] == t'.value[i];
          OwnFirst(wt.value[i], name, o, n + 1 + limit);
        } else {
          OwnTail(wt.value[i], name, o, limit, n);
        }
      }
      forall p | 0 <= p < n + 1 + limit && Starts(name, p) && o + p <= OFFSET_MASK ensures Known(wt, name[p..]) {
        KnownTurn(t, t', wt, name, o, limit, p);
      }
    }
  }

  lemma OwnFirst(e: Entry, name: seq<byte>, o: nat, limit: nat)
    requires OwnEntry(e, name, o, 1) && limit >= 1
    ensures OwnEntry(e, name, o, limit)
  {
    hide Starts;
  }

  lemma {:induction false} KnownTurn(t: Index, t': Index, wt: Index, name: seq<byte>, o: nat, limit: nat, p: nat)
    requires name != [] && LabelLen(name) < |name| && t.Some? && Recorded(t, t', name, o, 1)
    requires Recorded(t', wt, name[LabelLen(name) + 1..], o + LabelLen(name) + 1, limit)
    requires p < LabelLen(name) + 1 + limit && Starts(name, p) && o + p <= OFFSET_MASK
    ensures Known(wt, name[p..])
  {
    hide LabelLen, Starts, OwnEntry, Has;
    var n := LabelLen(name);
    StartsTurn(name, p);
    if p == 0 {
      assert Known(t', name[0..]);
      HasMore(t'.value, wt.value, name[0..]);
    } else {
      TailOfTail(name, n + 1, p);
    }
  }

  /** One label and nothing after it. */
  lemma RecordedAlone(t: Index, t': Index, name: seq<byte>, o: nat)
    requires Recorded(t, t', name, o, 1) && name != [] && LabelLen(name) == |name|
    ensures Recorded(t, t', name, o, |name|)
  {
    hide LabelLen, Known;
    forall p | 0 <= p < |name| && Starts(name, p) ensures p == 0 { StartsTurn(name, p); }
    hide Starts;
  }

  lemma RecordedNothing(t: Index, name: seq<byte>, o: nat)
    ensures Recorded(t, t, name, o, 0)
  {
  }

  /** The length of what is written and what the table learns. */
  predicate Told(buf: seq<byte>, t: Index, w: Written, name: seq<byte>, start: nat, comp: bool)
    requires start <= |buf|
  {
    w.Written? && |w.buf| == |buf| + Size(t, name, comp)
    && Recorded(t, w.t, name, |buf| - start, InPlace(t, name, comp))
  }

  lemma ToldPointer(buf: seq<byte>, t: Index, name: seq<byte>, start: nat, p: nat)
    requires start <= |buf| && name != [] && Known(t, name)
    ensures Told(buf, t, Written(buf + Pointer(p), t), name, start, true)
  {
    hide Known, LabelLen, Starts, Hit, Recorded, Pointer;
    assert |Pointer(p)| == 2 by { PointerLength(p); }
    HitUnfold(t, name);
    RecordedNothing(t, name, |buf| - start);
  }

  lemma PointerLength(p: nat)
    ensures |Pointer(p)| == 2
  {
  }

  lemma ToldNothing(buf: seq<byte>, t: Index, start: nat, comp: bool)
    requires start <= |buf|
    ensures Told(buf, t, Written(buf + [0], t), [], start, comp)
  {
    NoHit(t);
    RecordedNothing(t, [], |buf| - start);
    assert InFull([]) == 1;
  }

  lemma ToldLast(buf: seq<byte>, t: Index, t': Index, name: seq<byte>, start: nat, comp: bool)
    requires start <= |buf| && Good(name) && name != [] && LabelLen(name) == |name| && !(comp && Known(t, name))
    requires Recorded(t, t', name, |buf| - start, 1)
    ensures Told(buf, t, Written(buf + [|name| % 256] + name + [0], t'), name, start, comp)
  {
    hide Known, LabelLen, Starts, Hit, Recorded, Good, InFull;
    SizeTurn(t, name, comp);
    HitUnfold(t, name);
    RecordedAlone(t, t', name, |buf| - start);
  }

  lemma ToldTurn(buf: seq<byte>, t: Index, t': Index, w: Written, name: seq<byte>, start: nat, comp: bool)
    requires start <= |buf| && Good(name) && name != [] && LabelLen(name) < |name| && !(comp && Known(t, name))
    requires t' == t || t' == Added(t, name, |buf| - start)
    requires Recorded(t, t', name, |buf| - start, 1)
    requires var n := LabelLen(name);
             Told(buf + [n % 256] + name[..n], t', w, name[n + 1..], start, comp)
    ensures Told(buf, t, w, name, start, comp)
  {
    hide Known, LabelLen, Starts, Hit, Recorded, Good, InFull, Added, Size, InPlace;
    var n, o := LabelLen(name), |buf| - start;
    var rest := name[n + 1..];
    SizeTurn(t, name, comp);
    SizeAdded(t, name, o, rest, comp);
    InPlaceTurn(t, t', name, o, comp);
    RecordedTurn(t, t', w.t, name, o, InPlace(t', rest, comp));
  }

  lemma EmptyNotAdded(t: Index, pos: nat)
    ensures Added(t, [], pos) == t
  {
  }

  lemma {:induction false} WriteTold(buf: seq<byte>, t: Index, name: seq<byte>, start: nat, comp: bool)
    requires start <= |buf| && Good(name) && !Known(t, [])
    ensures Told(buf, t, Write(buf, t, name, start, comp), name, start, comp)
    decreases |name|
  {
    hide Known, LabelLen, Starts, Hit, Recorded, Good, InFull, Added, Size, InPlace, Told, Lookup, Pointer;
    LookupKnown(t, name);
    if name == [] {
      assert Added(t, [], |buf| - start) == t by { EmptyNotAdded(t, |buf| - start); }
      ToldNothing(buf, t, start, comp);
    } else if Known(t, name) && comp {
      ToldPointer(buf, t, name, start, Lookup(t, name).value);
    } else {
      RecordedFirst(t, name, |buf| - start, comp);
      GoodTurn(name);
      var t' := if Known(t, name) then t else Added(t, name, |buf| - start);
      var n := LabelLen(name);
      if n == |name| {
        ToldLast(buf, t, t', name, start, comp);
      } else {
        var pre, rest := buf + [n % 256] + name[..n], name[n + 1..];
        AddedOther(t, name, |buf| - start, []);
        WriteTold(pre, t', rest, start, comp);
        ToldTurn(buf, t, t', Write(pre, t', rest, start, comp), name, start, comp);
      }
    }
  }

  lemma EncodeTold(buf: seq<byte>, t: Index, name: seq<byte>, start: nat, comp: bool)
    requires start <= |buf| && Writable(name) && !Known(t, [])
    ensures Told(buf, t, Encode(buf, t, name, start, comp), name, start, comp)
  {
    hide Known, LabelLen, Starts, Hit, Recorded, Good, Added, Size, InPlace, Told, Lookup, Pointer, Write;
    LookupKnown(t, name);
    if name == [DOT] {
      if comp && Known(t, name) {
        RootPointer(buf, t, start);
      } else {
        RootTold(buf, t, start, comp);
      }
    } else {
      WriteTold(buf, t, name, start, comp);
    }
  }

  lemma RootPointer(buf: seq<byte>, t: Index, start: nat)
    requires start <= |buf| && Known(t, [DOT])
    ensures Told(buf, t, Write(buf, t, [DOT], start, true), [DOT], start, true)
  {
    hide Known, LabelLen, Hit, Recorded, Told, Lookup, Pointer;
    LookupKnown(t, [DOT]);
    ToldPointer(buf, t, [DOT], start, Lookup(t, [DOT]).value);
  }

  lemma RootTold(buf: seq<byte>, t: Index, start: nat, comp: bool)
    requires start <= |buf| && !(comp && Known(t, [DOT])) && !Known(t, [])
    ensures Told(buf, t, Written(buf + [0], if Known(t, [DOT]) then t else Added(t, [DOT], |buf| - start)),
                 [DOT], start, comp)
  {
    hide Known, Recorded, Added, Hit, Starts;
    RecordedFirst(t, [DOT], |buf| - start, comp);
    HitUnfold(t, [DOT]);
    assert LabelLen([DOT]) == 0;
    assert [DOT][1..] == [];
    NoHit(t);
    assert InFull([DOT]) == 1;
  }

  // ---------------------------------------------------------------- names that are refused

  /** An empty label among those that begin before `limit`. */
  predicate Gap(name: seq<byte>, limit: nat) {
    exists p :: 0 <= p < limit && Starts(name, p) && name[p] == DOT
  }

  lemma {:induction false} GapTurn(name: seq<byte>, limit: nat)
    requires name != [] && 0 < LabelLen(name) < |name|
    ensures Gap(name, LabelLen(name) + 1 + limit) <==> Gap(name[LabelLen(name) + 1..], limit)
  {
    hide LabelLen, Starts;
    var n := LabelLen(name);
    var rest := name[n + 1..];
    if p :| 0 <= p < n + 1 + limit && Starts(name, p) && name[p] == DOT {
      StartsTurn(name, p);
      assert name[0] != DOT;
      assert rest[p - (n + 1)] == DOT && Starts(rest, p - (n + 1));
    }
    if p :| 0 <= p < limit && Starts(rest, p) && rest[p] == DOT {
      StartsTurn(name, n + 1 + p);
      assert name[n + 1 + p] == DOT;
    }
  }

  lemma {:induction false} OneLabelGap(name: seq<byte>, limit: nat)
    requires name != [] && limit > 0
    ensures LabelLen(name) == 0 ==> Gap(name, limit)
    ensures LabelLen(name) == |name| ==> !Gap(name, limit)
  {
    hide LabelLen;
    if LabelLen(name) == 0 { assert Starts(name, 0); }
  }

  lemma {:induction false} WriteRefuses(buf: seq<byte>, t: Index, name: seq<byte>, start: nat, comp: bool)
    requires start <= |buf| && !Known(t, [])
    ensures Write(buf, t, name, start, comp).Failed? <==> Gap(name, InPlace(t, name, comp))
    decreases |name|
  {
    hide Known, LabelLen, Starts, Hit, Added, Lookup, Pointer, Gap;
    LookupKnown(t, name);
    if name == [] {
      NoGap(InPlace(t, name, comp));
      assert Added(t, [], |buf| - start) == t by { EmptyNotAdded(t, |buf| - start); }
    } else {
      HitUnfold(t, name);
      var n, o := LabelLen(name), |buf| - start;
      var t' := if Known(t, name) then t else Added(t, name, o);
      if Known(t, name) && comp {
        NothingBefore(name);
      } else if n == 0 || n == |name| {
        OneLabelGap(name, InPlace(t, name, comp));
      } else {
        var pre, rest := buf + [n % 256] + name[..n], name[n + 1..];
        AddedOther(t, name, o, []);
        WriteRefuses(pre, t', rest, start, comp);
        InPlaceTurn(t, t', name, o, comp);
        GapTurn(name, InPlace(t', rest, comp));
      }
    }
  }

  lemma NoGap(limit: nat)
    ensures !Gap([], limit)
  {
  }

  lemma NothingBefore(name: seq<byte>)
    ensures !Gap(name, 0)
  {
  }

  /** A name is refused if and only if it has an empty label, other than the root name or a final dot,
      that comes before any tail the table knows. */
  lemma EncodeRefuses(buf: seq<byte>, t: Index, name: seq<byte>, start: nat, comp: bool)
    requires start <= |buf| && !Known(t, [])
    ensures Encode(buf, t, name, start, comp).Failed? <==> name != [DOT] && Gap(name, InPlace(t, name, comp))
  {
    hide Known, Hit, Gap, Write, InPlace, Lookup;
    if name == [DOT] {
      if comp && Lookup(t, name).Some? { RootPointed(buf, t, start); }
    } else {
      WriteRefuses(buf, t, name, start, comp);
    }
  }

  lemma RootPointed(buf: seq<byte>, t: Index, start: nat)
    requires start <= |buf| && Lookup(t, [DOT]).Some?
    ensures Write(buf, t, [DOT], start, true).Written?
  {
  }

  // ---------------------------------------------------------------- what is known stays known

  lemma KnownCI(t: Index, x: seq<byte>, y: seq<byte>)
    requires Known(t, x) && SameCI(x, y)
    ensures Known(t, y)
  {
    hide SameCI;
    var i :| 0 <= i < |t.value| && SameCI(t.value[i].name, x);
    SameCITrans(t.value[i].name, x, y);
  }

  lemma TailsCI(a: seq<byte>, b: seq<byte>, p: nat)
    requires SameCI(a, b) && Starts(a, p)
    ensures Starts(b, p) && SameCI(b[p..], a[p..])
  {
    if p > 0 { assert Lower(a[p - 1]) == Lower(b[p - 1]); }
  }

  lemma StartsWithin(name: seq<byte>, q: nat, p: nat)
    requires Starts(name, q)
    ensures Starts(name[q..], p) <==> Starts(name, q + p)
  {
  }

  predicate EntryClosed(t: Index, e: Entry, o: nat) {
    && e.name != [] && e.pos < o
    && forall p :: 0 <= p < |e.name| && Starts(e.name, p) && e.pos + p <= OFFSET_MASK ==> Known(t, e.name[p..])
  }

  /** Entries point into what is written, and the tails of a known name are known where they can be
      pointed at. */
  predicate Closed(t: Index, o: nat) {
    t.Some? ==> forall i :: 0 <= i < |t.value| ==> EntryClosed(t, t.value[i], o)
  }

  /** A tail of a name at offset `o` that can be pointed at: its offset has at most fourteen bits. */
  predicate Learned(name: seq<byte>, o: nat, x: seq<byte>) {
    exists p :: 0 <= p < |name| && Starts(name, p) && o + p < 0x4000 && SameCI(name[p..], x)
  }

  /** The limit up to which a name is written label by label: all of it, or to a tail that is known. */
  predicate Limit(t: Index, name: seq<byte>, limit: nat) {
    limit == |name| || (Starts(name, limit) && Known(t, name[limit..]))
  }

  lemma InPlaceLimit(t: Index, name: seq<byte>, comp: bool)
    ensures Limit(t, name, InPlace(t, name, comp))
  {
    hide Known, Starts, Hit;
    HitExactly(t, name);
  }

  /** After a name is written, every tail of it that can be pointed at is known. */
  lemma {:induction false} TailKnown(t: Index, wt: Index, name: seq<byte>, o: nat, limit: nat, p: nat)
    requires t.Some? && Recorded(t, wt, name, o, limit) && Closed(t, o) && Limit(t, name, limit)
    requires Starts(name, p) && o + p <= OFFSET_MASK
    ensures Known(wt, name[p..])
  {
    hide Starts, SameCI, OwnEntry;
    if p >= limit {
      var tail := name[limit..];
      var i :| 0 <= i < |t.value| && SameCI(t.value[i].name, tail);
      var e := t.value[i];
      assert EntryClosed(t, e, o);
      StartsWithin(name, limit, p - limit);
      TailOfTail(name, limit, p);
      SameCISym(e.name, tail);
      TailsCI(tail, e.name, p - limit);
      KnownCI(t, e.name[p - limit..], name[p..]);
      HasMore(t.value, wt.value, name[p..]);
    }
  }

  lemma SameCISym(a: seq<byte>, b: seq<byte>)
    requires SameCI(a, b)
    ensures SameCI(b, a)
  {
  }

  lemma {:induction false} OldStaysClosed(t: Index, wt: Index, e: Entry, o: nat, o': nat)
    requires t.Some? && wt.Some? && t.value <= wt.value && o <= o' && EntryClosed(t, e, o)
    ensures EntryClosed(wt, e, o')
  {
    hide Starts, Has;
    forall p | 0 <= p < |e.name| && Starts(e.name, p) && e.pos + p <= OFFSET_MASK ensures Known(wt, e.name[p..]) {
      HasMore(t.value, wt.value, e.name[p..]);
    }
  }

  lemma {:induction false} OwnIsClosed(t: Index, wt: Index, e: Entry, name: seq<byte>, o: nat, limit: nat, o': nat)
    requires t.Some? && Recorded(t, wt, name, o, limit) && Closed(t, o) && Limit(t, name, limit)
    requires OwnEntry(e, name, o, limit) && o + limit <= o'
    ensures EntryClosed(wt, e, o')
  {
    hide Starts, Known, Closed, Limit, Recorded;
    var q := e.pos - o;
    forall p | 0 <= p < |e.name| && Starts(e.name, p) && e.pos + p <= OFFSET_MASK ensures Known(wt, e.name[p..]) {
      StartsWithin(name, q, p);
      TailKnown(t, wt, name, o, limit, q + p);
      TailOfTail(name, q, q + p);
    }
  }

  lemma {:induction false} StaysClosed(t: Index, wt: Index, name: seq<byte>, o: nat, limit: nat, o': nat)
    requires Recorded(t, wt, name, o, limit) && Closed(t, o) && Limit(t, name, limit) && o + limit <= o'
    ensures Closed(wt, o')
  {
    hide EntryClosed, OwnEntry, Limit, Known;
    if t.Some? {
      forall i | 0 <= i < |wt.value| ensures EntryClosed(wt, wt.value[i], o') {
        if i < |t.value| {
          assert wt.value[i] == t.value[i];
          OldStaysClosed(t, wt, t.value[i], o, o');
        } else {
          OwnIsClosed(t, wt, wt.value[i], name, o, limit, o');
        }
      }
    }
  }

  /** What is known after a name was written is what was known before and the name's own tails. */
  lemma {:induction false} KnownAfter(t: Index, wt: Index, name: seq<byte>, o: nat, limit: nat, x: seq<byte>)
    requires t.Some? && Recorded(t, wt, name, o, limit) && Closed(t, o) && Limit(t, name, limit)
    ensures Known(wt, x) <==> Known(t, x) || Learned(name, o, x)
  {
    hide Starts, SameCI, Closed, Limit;
    if Known(t, x) { HasMore(t.value, wt.value, x); }
    if Learned(name, o, x) {
      var p :| 0 <= p < |name| && Starts(name, p) && o + p <= OFFSET_MASK && SameCI(name[p..], x);
      TailKnown(t, wt, name, o, limit, p);
      KnownCI(wt, name[p..], x);
    }
    if Known(wt, x) && !Known(t, x) {
      var i :| 0 <= i < |wt.value| && SameCI(wt.value[i].name, x);
      if i < |t.value| {
        assert t.value[i] == wt.value[i];
      } else {
        assert OwnEntry(wt.value[i], name, o, limit);
      }
    }
  }

  lemma SizeCovers(t: Index, name: seq<byte>, comp: bool)
    ensures InPlace(t, name, comp) <= Size(t, name, comp)
  {
    hide Hit;
  }

  lemma EmptyUnknown(t: Index, o: nat)
    requires Closed(t, o)
    ensures !Known(t, [])
  {
  }

  // ---------------------------------------------------------------- whole messages

  /** A write takes the bytes that `Size` says, and the table then knows what it knew and the tails of
      the name that can be pointed at. */
  lemma {:induction false} ApplyLearns(buf: seq<byte>, t: Index, start: nat, op: Op, x: seq<byte>)
    requires start <= |buf| && t.Some? && Closed(t, |buf| - start) && (op.Put? ==> Writable(op.name))
    ensures var w := Apply(buf, t, start, op);
            && w.Written? && w.t.Some? && |w.buf| >= |buf| && Closed(w.t, |w.buf| - start)
            && (op.Put? ==> |w.buf| == |buf| + Size(t, op.name, op.comp))
            && (Known(w.t, x) <==> Known(t, x) || (op.Put? && Learned(op.name, |buf| - start, x)))
  {
    hide Known, Learned, Size, InPlace, Encode, Closed, Recorded, Writable;
    var o, w := |buf| - start, Apply(buf, t, start, op);
    if op.Put? {
      EmptyUnknown(t, o);
      EncodeTold(buf, t, op.name, start, op.comp);
      InPlaceLimit(t, op.name, op.comp);
      SizeCovers(t, op.name, op.comp);
      var limit := InPlace(t, op.name, op.comp);
      assert w.t.Some? by { RecordedKeeps(t, w.t, op.name, o, limit); }
      StaysClosed(t, w.t, op.name, o, limit, |w.buf| - start);
      KnownAfter(t, w.t, op.name, o, limit, x);
    } else {
      LaterClosed(t, o, |w.buf| - start);
    }
  }

  lemma RecordedKeeps(t: Index, wt: Index, name: seq<byte>, o: nat, limit: nat)
    requires Recorded(t, wt, name, o, limit)
    ensures t.Some? == wt.Some?
  {
  }

  lemma LaterClosed(t: Index, o: nat, o': nat)
    requires Closed(t, o) && o <= o'
    ensures Closed(t, o')
  {
    hide Known;
  }

  predicate AllWritable(ops: seq<Op>) {
    forall i :: 0 <= i < |ops| && ops[i].Put? ==> Writable(ops[i].name)
  }

  lemma {:induction false} RunSnoc(buf: seq<byte>, t: Index, start: nat, ops: seq<Op>, op: Op)
    requires start <= |buf| && Run(buf, t, start, ops).Written? && |Run(buf, t, start, ops).buf| >= start
    requires var b := Run(buf, t, start, ops);
             var w := Apply(b.buf, b.t, start, op); w.Written? && |w.buf| >= start
    ensures var b := Run(buf, t, start, ops);
            Run(buf, t, start, ops + [op]) == Apply(b.buf, b.t, start, op)
    decreases |ops|
  {
    hide Apply;
    if ops == [] {
      assert ops + [op] == [op];
      var w := Apply(buf, t, start, op);
      assert [op][1..] == [];
      assert Run(w.buf, w.t, start, []) == w;
    } else {
      var w := Apply(buf, t, start, ops[0]);
      assert (ops + [op])[1..] == ops[1..] + [op];
      RunSnoc(w.buf, w.t, start, ops[1..], op);
    }
  }

  /** A message that starts with an empty table, after its first j writes. */
  function After(buf: seq<byte>, ops: seq<Op>, j: nat): Written
    requires j <= |ops|
  {
    Run(buf, Some([]), |buf|, ops[..j])
  }

  /** The offset in the message at which write j begins. */
  function Offset(buf: seq<byte>, ops: seq<Op>, j: nat): nat
    requires j <= |ops|
  {
    var n := |After(buf, ops, j).buf|;
    if n < |buf| then 0 else n - |buf|
  }

  predicate Underway(buf: seq<byte>, w: Written) {
    w.Written? && w.t.Some? && |w.buf| >= |buf| && Closed(w.t, |w.buf| - |buf|)
  }

  /** One of the first j writes put a name with the tail x, up to case, where it can be pointed at. */
  predicate Seen(buf: seq<byte>, ops: seq<Op>, j: nat, x: seq<byte>)
    requires j <= |ops|
  {
    exists i :: 0 <= i < j && ops[i].Put? && Learned(ops[i].name, Offset(buf, ops, i), x)
  }

  lemma {:induction false} AfterNext(buf: seq<byte>, ops: seq<Op>, j: nat, x: seq<byte>)
    requires j < |ops| && AllWritable(ops) && Underway(buf, After(buf, ops, j))
    ensures var b, w := After(buf, ops, j), After(buf, ops, j + 1);
            && Underway(buf, w) && w == Apply(b.buf, b.t, |buf|, ops[j])
            && (ops[j].Put? ==> |w.buf| == |b.buf| + Size(b.t, ops[j].name, ops[j].comp))
            && (Known(w.t, x) <==> Known(b.t, x) || (ops[j].Put? && Learned(ops[j].name, Offset(buf, ops, j), x)))
  {
    hide Known, Learned, Size, Closed, Writable, Apply, Run;
    var b := After(buf, ops, j);
    assert ops[..j + 1] == ops[..j] + [ops[j]];
    ApplyLearns(b.buf, b.t, |buf|, ops[j], x);
    RunSnoc(buf, Some([]), |buf|, ops[..j], ops[j]);
  }

  lemma Begins(buf: seq<byte>, ops: seq<Op>)
    ensures After(buf, ops, 0) == Written(buf, Some([])) && Underway(buf, After(buf, ops, 0))
  {
    assert ops[..0] == [];
  }

  /** The table knows exactly the tails of the names put so far that can be pointed at. */
  lemma {:induction false} KnownIsSeen(buf: seq<byte>, ops: seq<Op>, j: nat, x: seq<byte>)
    requires j <= |ops| && AllWritable(ops)
    ensures Underway(buf, After(buf, ops, j))
    ensures Known(After(buf, ops, j).t, x) <==> Seen(buf, ops, j, x)
  {
    hide Known, Learned, Closed, Writable, Size, After, Offset, Apply;
    if j == 0 {
      Begins(buf, ops);
      assert !Known(Some([]), x) by { NothingKnown(x); }
    } else {
      KnownIsSeen(buf, ops, j - 1, x);
      AfterNext(buf, ops, j - 1, x);
    }
  }

  lemma NothingKnown(x: seq<byte>)
    ensures !Known(Some([]), x)
  {
  }

  /** Where the longest tail of a name begins that is there to be pointed at. */
  predicate LongestSeen(buf: seq<byte>, ops: seq<Op>, j: nat, name: seq<byte>, p: nat)
    requires j <= |ops|
  {
    && Starts(name, p) && Seen(buf, ops, j, name[p..])
    && forall q :: 0 <= q < p && Starts(name, q) ==> !Seen(buf, ops, j, name[q..])
  }

  /** What a name takes in a message: with compression, the part before its longest tail seen so far and
      two bytes for the pointer; without, or if no tail was seen, its full length. */
  lemma {:induction false} WrittenLength(buf: seq<byte>, ops: seq<Op>, j: nat)
    requires j < |ops| && AllWritable(ops) && ops[j].Put?
    ensures var name, comp := ops[j].name, ops[j].comp;
            var took := |After(buf, ops, j + 1).buf| - |After(buf, ops, j).buf|;
            && (comp ==> forall p: nat :: LongestSeen(buf, ops, j, name, p) ==> took == p + 2)
            && (!comp || (forall p :: 0 <= p < |name| && Starts(name, p) ==> !Seen(buf, ops, j, name[p..])) ==>
                  took == InFull(name))
  {
    hide Known, Learned, Closed, Writable, After, Offset, Starts, Seen, InFull, Apply, Underway, Hit;
    var name, t := ops[j].name, After(buf, ops, j).t;
    KnownIsSeen(buf, ops, j, name);
    AfterNext(buf, ops, j, name);
    forall p | 0 <= p < |name| ensures Known(t, name[p..]) <==> Seen(buf, ops, j, name[p..]) {
      KnownIsSeen(buf, ops, j, name[p..]);
    }
    var h := Hit(t, name);
    HitExactly(t, name);
    forall p: nat | LongestSeen(buf, ops, j, name, p) ensures h == Some(p) {
      assert Starts(name, p);
    }
  }

  /** A name written before, up to case, takes two bytes; so do all but the first of many copies. */
  lemma WrittenAgain(buf: seq<byte>, ops: seq<Op>, i: nat, j: nat)
    requires i < j < |ops| && AllWritable(ops) && ops[i].Put? && ops[j].Put? && ops[j].comp
    requires ops[i].name != [] && SameCI(ops[i].name, ops[j].name) && Offset(buf, ops, i) < 0x4000
    ensures |After(buf, ops, j + 1).buf| == |After(buf, ops, j).buf| + 2
  {
    hide After, SameCI, InFull, Offset, Writable;
    var a, b := ops[i].name, ops[j].name;
    assert a[0..] == a && b[0..] == b;
    assert b != [] by { SameCILen(a, b); }
    assert Learned(a, Offset(buf, ops, i), b);
    assert LongestSeen(buf, ops, j, b, 0);
    WrittenLength(buf, ops, j);
  }

  /** Without a table, nothing is compressed. */
  lemma NoTable(buf: seq<byte>, name: seq<byte>, start: nat, comp: bool)
    requires start <= |buf| && Writable(name)
    ensures |Encode(buf, None, name, start, comp).buf| == |buf| + InFull(name)
  {
    hide Encode, Writable, InFull;
    HitExactly(None, name);
    EncodeTold(buf, None, name, start, comp);
  }
}
