/** A whole message: names and other bytes written one after the other into one buffer. */
module DnsMessage {
  import opened Bytes
  import opened DnsName
  import opened DnsCodec
  import opened DnsRoundTrip

  datatype Op = Raw(bytes: seq<byte>) | Put(name: seq<byte>, comp: bool)

  predicate Allowed(ops: seq<Op>) {
    forall i :: 0 <= i < |ops| && ops[i].Put? ==>
      Writable(ops[i].name) && LabelsFit(ops[i].name) && |Stripped(ops[i].name)| <= 255
  }

  function Apply(buf: seq<byte>, t: Index, start: nat, op: Op): Written
    requires start <= |buf|
  {
    match op
    case Raw(bytes) => Written(buf + bytes, t)
    case Put(name, comp) => Encode(buf, t, name, start, comp)
  }

  /** The buffer and the table after a sequence of writes. */
  function Run(buf: seq<byte>, t: Index, start: nat, ops: seq<Op>): Written
    requires start <= |buf|
    decreases |ops|
  {
    if ops == [] then Written(buf, t)
    else
      var w := Apply(buf, t, start, ops[0]);
      if w.Failed? || |w.buf| < start then Failed(w.buf, w.t) else Run(w.buf, w.t, start, ops[1..])
  }

  lemma ApplyKeeps(buf: seq<byte>, t: Index, start: nat, op: Op)
    requires start <= |buf| && AllOk(buf, start, t) && Allowed([op])
    ensures var w := Apply(buf, t, start, op);
            && w.Written? && buf <= w.buf && AllOk(w.buf, start, w.t)
            && (op.Put? ==> Spells(w.buf, start, |buf|, Labels(op.name)) && Stop(w.buf, |buf|) == Some(|w.buf|))
  {
    hide Spells, Stop, Labels, Good, Encode;
    assert [op][0] == op;
    if op.Put? {
      EncodeSpells(buf, t, op.name, start, op.comp);
    } else if t.Some? {
      forall i | 0 <= i < |t.value| ensures EntryOk(buf + op.bytes, start, t.value[i]) {
        EntryGrows(buf, op.bytes, start, t.value[i]);
      }
    }
  }

  lemma AllowedSplit(ops: seq<Op>)
    requires Allowed(ops) && ops != []
    ensures Allowed([ops[0]]) && Allowed(ops[1..])
  {
  }

  /** Allowed writes never fail and keep every table entry pointing at a spelling of its key. */
  lemma {:induction false} RunKeeps(buf: seq<byte>, t: Index, start: nat, ops: seq<Op>)
    requires start <= |buf| && AllOk(buf, start, t) && Allowed(ops)
    ensures var w := Run(buf, t, start, ops);
            w.Written? && buf <= w.buf && AllOk(w.buf, start, w.t)
    decreases |ops|
  {
    hide Apply, AllOk, Allowed;
    if ops != [] {
      AllowedSplit(ops);
      ApplyKeeps(buf, t, start, ops[0]);
      var w := Apply(buf, t, start, ops[0]);
      RunKeeps(w.buf, w.t, start, ops[1..]);
    }
  }

  /** After any allowed writes to one buffer and table, each name reads back at its place in the
      finished message, up to case and a final dot, and the reader stops just after it. */
  lemma {:induction false} EveryNameReadsBack(buf: seq<byte>, t: Index, start: nat, ops: seq<Op>, i: nat)
    requires start <= |buf| && AllOk(buf, start, t) && Allowed(ops)
    requires i < |ops| && ops[i].Put?
    ensures var before, after := Run(buf, t, start, ops[..i]), Run(buf, t, start, ops[..i + 1]);
            var final := Run(buf, t, start, ops);
            && before.Written? && after.Written? && final.Written?
            && ReadsBack(final.buf, start, |before.buf|, ops[i].name, |after.buf|)
    decreases |ops|
  {
    hide Apply, AllOk, ReadsBack, Allowed;
    AllowedSplit(ops);
    ApplyKeeps(buf, t, start, ops[0]);
    var w := Apply(buf, t, start, ops[0]);
    RunKeeps(buf, t, start, ops);
    RunKeeps(w.buf, w.t, start, ops[1..]);
    if i == 0 {
      assert Run(buf, t, start, ops[..0]) == Written(buf, t);
      RunOne(buf, t, start, ops[0]);
      assert ops[..1] == [ops[0]];
      FirstReadsBack(buf, w, Run(buf, t, start, ops).buf, start, ops[0]);
    } else {
      EveryNameReadsBack(w.buf, w.t, start, ops[1..], i - 1);
      RunPrefix(buf, t, start, ops, i);
      RunPrefix(buf, t, start, ops, i + 1);
    }
  }

  lemma RunOne(buf: seq<byte>, t: Index, start: nat, op: Op)
    requires start <= |buf| && Apply(buf, t, start, op).Written? && buf <= Apply(buf, t, start, op).buf
    ensures Run(buf, t, start, [op]) == Apply(buf, t, start, op)
  {
    hide Apply;
    var w := Apply(buf, t, start, op);
    assert [op][1..] == [];
    assert Run(w.buf, w.t, start, []) == w;
  }

  lemma RunPrefix(buf: seq<byte>, t: Index, start: nat, ops: seq<Op>, i: nat)
    requires start <= |buf| && 1 <= i <= |ops|
    requires Apply(buf, t, start, ops[0]).Written? && buf <= Apply(buf, t, start, ops[0]).buf
    ensures var w := Apply(buf, t, start, ops[0]);
            Run(buf, t, start, ops[..i]) == Run(w.buf, w.t, start, ops[1..][..i - 1])
  {
    hide Apply;
    assert ops[..i][0] == ops[0] && ops[..i][1..] == ops[1..][..i - 1];
  }

  lemma FirstReadsBack(buf: seq<byte>, w: Written, final: seq<byte>, start: nat, op: Op)
    requires w.Written? && w.buf <= final && op.Put? && Allowed([op])
    requires Spells(w.buf, start, |buf|, Labels(op.name)) && Stop(w.buf, |buf|) == Some(|w.buf|)
    ensures ReadsBack(final, start, |buf|, op.name, |w.buf|)
  {
    hide Spells, Stop, Labels;
    var more := final[|w.buf|..];
    assert final == w.buf + more;
    SpellsGrows(w.buf, more, start, |buf|, Labels(op.name));
    StopGrows(w.buf, more, |buf|);
    assert [op][0] == op;
    SpelledReadsBack(final, start, |buf|, op.name, |w.buf|);
  }
}
