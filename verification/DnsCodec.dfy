/** Writing and reading compressed domain names (section 4.1.4 of RFC 1035). */
module DnsCodec {
  import opened Bytes
  import opened DnsName
  import opened DnsTable

  const OFFSET_MASK := 0x3fff

  /** The table of names already written, or None when the caller passes no table. */
  type Index = Option<seq<Entry>>

  function Lookup(t: Index, name: seq<byte>): Option<nat> {
    if t.None? then None else Find(t.value, name)
  }

  function Added(t: Index, name: seq<byte>, pos: nat): Index {
    if t.None? || pos > OFFSET_MASK || name == [] then t else Some(t.value + [Entry(name, pos)])
  }

  function Pointer(pos: nat): seq<byte> {
    [192 + pos / 256 % 64, pos % 256]
  }

  /** What is in the buffer and in the table afterwards, also after a name that is refused half way. */
  datatype Written = Failed(buf: seq<byte>, t: Index) | Written(buf: seq<byte>, t: Index)

  /** Appends a name, or a pointer to an equal one when that is allowed. */
  function Write(buf: seq<byte>, t: Index, name: seq<byte>, start: nat, comp: bool): Written
    requires start <= |buf|
    decreases |name|, 1
  {
    match Lookup(t, name)
    case Some(p) => if comp then Written(buf + Pointer(p), t) else WriteLabel(buf, t, name, start, comp)
    case None => WriteLabel(buf, Added(t, name, |buf| - start), name, start, comp)
  }

  /** Appends the first label of a name and then the rest. */
  function WriteLabel(buf: seq<byte>, t: Index, name: seq<byte>, start: nat, comp: bool): Written
    requires start <= |buf|
    decreases |name|, 0
  {
    var n := LabelLen(name);
    if name == [] then Written(buf + [0], t)
    else if n == 0 then Failed(buf + [0], t)
    else if n == |name| then Written(buf + [n % 256] + name + [0], t)
    else Write(buf + [n % 256] + name[..n], t, name[n + 1..], start, comp)
  }

  /** The whole operation; only here the root name "." is accepted. */
  function Encode(buf: seq<byte>, t: Index, name: seq<byte>, start: nat, comp: bool): Written
    requires start <= |buf|
  {
    if name == [DOT] && !(comp && Lookup(t, name).Some?) then
      Written(buf + [0], if Lookup(t, name).None? then Added(t, name, |buf| - start) else t)
    else Write(buf, t, name, start, comp)
  }

  // ---------------------------------------------------------------- reader

  datatype Decoded = Malformed | Name(text: seq<byte>, pos: nat)

  function Target(buf: seq<byte>, start: nat, at: nat): nat
    requires at + 1 < |buf| && buf[at] >= 192
  {
    start + (buf[at] as nat - 192) * 256 + buf[at + 1]
  }

  /** The reader's loop: the text so far, how many pointers were followed, and where to resume. */
  function DecodeFrom(buf: seq<byte>, start: nat, at: nat, text: seq<byte>, jumps: nat, back: Option<nat>): Decoded
    requires jumps <= 256 && |text| <= 255
    decreases 256 - jumps, 255 - |text|
  {
    if at >= |buf| then Malformed
    else
      var len := buf[at];
      if len == 0 then Name(text, if back.Some? then back.value else at + 1)
      else if len >= 192 then
        if jumps > 255 || at + 1 >= |buf| then Malformed
        else DecodeFrom(buf, start, Target(buf, start, at), text, jumps + 1, if back.Some? then back else Some(at + 2))
      else if len > |buf| - (at + 1) || len + |text| + 2 > 256 then Malformed
      else
        DecodeFrom(buf, start, at + 1 + len,
                   text + (if text == [] then [] else [DOT]) + buf[at + 1..at + 1 + len], jumps, back)
  }

  function Decode(buf: seq<byte>, start: nat, at: nat): Decoded {
    DecodeFrom(buf, start, at, [], 0, None)
  }

  // ---------------------------------------------------------------- meaning of a buffer position

  /** Where the name written in place at `at` ends: after its zero byte or its first pointer. */
  function Stop(buf: seq<byte>, at: nat): (r: Option<nat>)
    ensures r.Some? ==> at < r.value <= |buf|
    decreases |buf| - at
  {
    if at >= |buf| then None
    else if buf[at] == 0 then Some(at + 1)
    else if buf[at] >= 192 then if at + 1 < |buf| then Some(at + 2) else None
    else Stop(buf, at + 1 + buf[at])
  }

  /** The bytes at `at` spell the labels `ls` up to case. Pointers lead strictly backwards and
      never to another pointer. */
  predicate Spells(buf: seq<byte>, start: nat, at: nat, ls: seq<seq<byte>>)
    decreases |ls|, at
  {
    && at < |buf|
    && if buf[at] >= 192 then
         && at + 1 < |buf|
         && var target := Target(buf, start, at);
         target < at && buf[target] < 192 && Spells(buf, start, target, ls)
       else if buf[at] == 0 then ls == []
       else
         && ls != [] && |ls[0]| == buf[at] && at + 1 + buf[at] <= |buf|
         && SameCI(buf[at + 1..at + 1 + buf[at]], ls[0])
         && Spells(buf, start, at + 1 + buf[at], ls[1..])
  }

  lemma SpellsAtRoot(buf: seq<byte>, start: nat, at: nat)
    requires at < |buf| && buf[at] == 0
    ensures Spells(buf, start, at, []) && Stop(buf, at) == Some(at + 1)
  {
  }

  lemma SpellsAtLabel(buf: seq<byte>, start: nat, at: nat, len: nat, ls: seq<seq<byte>>)
    requires at + 1 + len <= |buf| && buf[at] == len && 0 < len < 192
    requires ls != [] && |ls[0]| == len && SameCI(buf[at + 1..at + 1 + len], ls[0])
    requires Spells(buf, start, at + 1 + len, ls[1..])
    ensures Spells(buf, start, at, ls) && Stop(buf, at) == Stop(buf, at + 1 + len)
  {
  }

  lemma SpellsAtPointer(buf: seq<byte>, start: nat, at: nat, ls: seq<seq<byte>>)
    requires at + 1 < |buf| && buf[at] >= 192
    requires Target(buf, start, at) < at && buf[Target(buf, start, at)] < 192
    requires Spells(buf, start, Target(buf, start, at), ls)
    ensures Spells(buf, start, at, ls) && Stop(buf, at) == Some(at + 2)
  {
  }

  lemma {:induction false} StopGrows(buf: seq<byte>, more: seq<byte>, at: nat)
    requires Stop(buf, at).Some?
    ensures Stop(buf + more, at) == Stop(buf, at)
    decreases |buf| - at
  {
    if 0 < buf[at] < 192 { StopGrows(buf, more, at + 1 + buf[at]); }
  }

  lemma {:induction false} SpellsGrows(buf: seq<byte>, more: seq<byte>, start: nat, at: nat, ls: seq<seq<byte>>)
    requires Spells(buf, start, at, ls)
    ensures Spells(buf + more, start, at, ls)
    decreases |ls|, at
  {
    if buf[at] >= 192 {
      SpellsGrows(buf, more, start, Target(buf, start, at), ls);
    } else if buf[at] > 0 {
      SpellsGrows(buf, more, start, at + 1 + buf[at], ls[1..]);
      assert (buf + more)[at + 1..at + 1 + buf[at]] == buf[at + 1..at + 1 + buf[at]];
    }
  }

  lemma {:induction false} SpellsCI(buf: seq<byte>, start: nat, at: nat, xs: seq<seq<byte>>, ys: seq<seq<byte>>)
    requires Spells(buf, start, at, xs) && SameLabels(xs, ys)
    ensures Spells(buf, start, at, ys)
    decreases |xs|, at
  {
    if buf[at] >= 192 {
      SpellsCI(buf, start, Target(buf, start, at), xs, ys);
    } else if buf[at] > 0 {
      SpellsCI(buf, start, at + 1 + buf[at], xs[1..], ys[1..]);
    }
  }

  /** On any buffer at all: a name that is read has at most 255 characters, and the reader resumes
      after the first pointer it met, or after the zero byte if it met none. */
  lemma {:induction false} DecodeResumes(buf: seq<byte>, start: nat, at: nat, text: seq<byte>, jumps: nat,
                                         back: Option<nat>)
    requires jumps <= 256 && |text| <= 255
    ensures var d := DecodeFrom(buf, start, at, text, jumps, back);
            d.Name? ==>
              && |d.text| <= 255
              && (back.Some? ==> d.pos == back.value)
              && (back.None? ==> Stop(buf, at) == Some(d.pos))
    decreases 256 - jumps, 255 - |text|
  {
    if at < |buf| && buf[at] > 0 {
      var len := buf[at];
      if len >= 192 {
        if jumps <= 255 && at + 1 < |buf| {
          DecodeResumes(buf, start, Target(buf, start, at), text, jumps + 1, if back.Some? then back else Some(at + 2));
        }
      } else if len <= |buf| - (at + 1) && len + |text| + 2 <= 256 {
        DecodeResumes(buf, start, at + 1 + len,
                      text + (if text == [] then [] else [DOT]) + buf[at + 1..at + 1 + len], jumps, back);
      }
    }
  }

  /** A pointer to itself is given up after the loop bound, whatever was read before. */
  lemma {:induction false} SelfPointerFails(buf: seq<byte>, start: nat, at: nat, text: seq<byte>, jumps: nat,
                                            back: Option<nat>)
    requires jumps <= 256 && |text| <= 255
    requires at + 1 < |buf| && buf[at] >= 192 && Target(buf, start, at) == at
    ensures DecodeFrom(buf, start, at, text, jumps, back) == Malformed
    decreases 256 - jumps
  {
    if jumps <= 255 {
      SelfPointerFails(buf, start, at, text, jumps + 1, if back.Some? then back else Some(at + 2));
    }
  }
}
