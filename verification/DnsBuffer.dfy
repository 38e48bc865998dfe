/** The name writer and reader as loops over a buffer. */
module DnsBuffer {
  import opened Bytes
  import opened DnsName
  import opened DnsTable
  import DnsCodec

  // ---------------------------------------------------------------- reader

  /** Reads a name; the text is collected in a buffer of 256 bytes. */
  method DecodeName(buf: seq<byte>, start: nat, at: nat) returns (d: DnsCodec.Decoded)
    ensures d == DnsCodec.Decode(buf, start, at)
  {
    hide DnsCodec.DecodeFrom;
    var text := new byte[256];
    var i: nat, loopc: nat, pos: nat := 0, 0, at;
    var back: Option<nat> := None;
    while pos < |buf|
      invariant i <= 255 && loopc <= 256
      invariant DnsCodec.Decode(buf, start, at) == DnsCodec.DecodeFrom(buf, start, pos, text[..i], loopc, back)
      decreases 256 - loopc, 255 - i
    {
      var len := buf[pos];
      ReaderTurn(buf, start, pos, text[..i], loopc, back);
      if len == 0 {
        return DnsCodec.Name(text[..i], if back.Some? then back.value else pos + 1);
      } else if len >= 192 {
        if loopc > 255 || |buf| - pos < 2 {
          break;
        }
        if back.None? {
          back := Some(pos + 2);
        }
        loopc := loopc + 1;
        pos := DnsCodec.Target(buf, start, pos);
      } else if len > |buf| - (pos + 1) || len + i + 2 > 256 {
        break;
      } else {
        i := CopyLabel(text, i, buf[pos + 1..pos + 1 + len]);
        pos := pos + 1 + len;
      }
    }
    ReaderTurn(buf, start, pos, text[..i], loopc, back);
    d := DnsCodec.Malformed;
  }

  /** A dot, unless this is the first label, and the label. */
  method CopyLabel(text: array<byte>, i: nat, s: seq<byte>) returns (end: nat)
    requires i + 1 + |s| <= text.Length
    modifies text
    ensures end == i + Bit(i > 0) + |s|
    ensures text[..end] == old(text[..i]) + (if old(text[..i]) == [] then [] else [DOT]) + s
  {
    ghost var was := text[..i];
    end := i;
    if i > 0 {
      text[end] := DOT;
      end := end + 1;
    }
    ghost var sep := text[..end];
    assert sep == was + if was == [] then [] else [DOT];
    for j := 0 to |s|
      invariant end == i + Bit(i > 0) + j && text[..end] == sep + s[..j]
    {
      text[end] := s[j];
      end := end + 1;
    }
  }

  /** One turn of the reader's loop, case by case. */
  lemma ReaderTurn(buf: seq<byte>, start: nat, at: nat, text: seq<byte>, jumps: nat, back: Option<nat>)
    requires jumps <= 256 && |text| <= 255
    ensures var d := DnsCodec.DecodeFrom(buf, start, at, text, jumps, back);
            if at >= |buf| then d == DnsCodec.Malformed
            else if buf[at] == 0 then d == DnsCodec.Name(text, if back.Some? then back.value else at + 1)
            else if buf[at] >= 192 then
              if jumps > 255 || at + 1 >= |buf| then d == DnsCodec.Malformed
              else d == DnsCodec.DecodeFrom(buf, start, DnsCodec.Target(buf, start, at), text, jumps + 1,
                                            if back.Some? then back else Some(at + 2))
            else if buf[at] > |buf| - (at + 1) || buf[at] + |text| + 2 > 256 then d == DnsCodec.Malformed
            else
              d == DnsCodec.DecodeFrom(buf, start, at + 1 + buf[at],
                     text + (if text == [] then [] else [DOT]) + buf[at + 1..at + 1 + buf[at]], jumps, back)
  {
  }

  // ---------------------------------------------------------------- writer

  class Message {
    const start: nat         // where the message begins in the buffer
    var buf: seq<byte>
    const table: Table?      // names already written, if the caller keeps a table

    constructor (buf: seq<byte>, table: Table?)
      requires table != null ==> table.Valid()
      ensures this.buf == buf && this.start == |buf| && this.table == table && Valid()
    {
      this.buf, this.start, this.table := buf, |buf|, table;
    }

    ghost predicate Valid()
      reads this, table
    {
      start <= |buf| && (table != null ==> table.Valid())
    }

    ghost function Index(): DnsCodec.Index
      reads this, table
    {
      if table == null then None else Some(table.entries)
    }

    method Lookup(name: seq<byte>) returns (r: Option<nat>)
      requires Valid()
      ensures r == DnsCodec.Lookup(Index(), name)
    {
      if table == null {
        return None;
      }
      r := table.Lookup(name);
    }

    method AppendEntry(name: seq<byte>, pos: nat)
      requires Valid()
      modifies table
      ensures Valid() && Index() == DnsCodec.Added(old(Index()), name, pos)
    {
      if table == null || pos > DnsCodec.OFFSET_MASK || name == [] {
        return;
      }
      table.Append(name, pos);
    }

    /** Writes a name, or a pointer to an equal one that the table knows. */
    method Encode(name: seq<byte>, comp: bool) returns (err: Errno)
      requires Valid()
      modifies this, table
      ensures Valid() && (err == OK || err == EINVAL)
      ensures DnsCodec.Encode(old(buf), old(Index()), name, start, comp)
           == if err == OK then DnsCodec.Written(buf, Index()) else DnsCodec.Failed(buf, Index())
    {
      hide DnsCodec.Lookup, DnsCodec.Added, DnsCodec.WriteLabel, DnsCodec.Pointer, Table.Valid;
      var dn := Lookup(name);
      if dn.Some? && comp {
        buf := buf + DnsCodec.Pointer(dn.value);
        return OK;
      }
      if dn.None? {
        AppendEntry(name, |buf| - start);
      }
      if name == [DOT] {
        buf := buf + [0];
        return OK;
      }
      err := EncodeLabels(name, comp);
    }

    /** The loop over the characters; each length byte is filled in when its label ends. */
    method EncodeLabels(name: seq<byte>, comp: bool) returns (err: Errno)
      requires Valid()
      modifies this, table
      ensures Valid() && (err == OK || err == EINVAL)
      ensures DnsCodec.WriteLabel(old(buf), old(Index()), name, start, comp)
           == if err == OK then DnsCodec.Written(buf, Index()) else DnsCodec.Failed(buf, Index())
    {
      hide DnsCodec.Lookup, DnsCodec.Added, DnsCodec.WriteLabel, DnsCodec.Pointer, Table.Valid, LabelLen;
      ghost var goal := DnsCodec.WriteLabel(buf, Index(), name, start, comp);
      var pos := |buf|;
      ghost var base: seq<byte>, s: nat := buf, 0;
      var mb := buf + [0];
      assert name[0..] == name;
      var i: nat := 0;
      while i < |name|
        invariant Valid() && start <= |base| == pos && s <= i <= |name|
        invariant mb == base + [0] + name[s..i]
        invariant forall k :: s <= k < i ==> name[k] != DOT
        invariant goal == DnsCodec.WriteLabel(base, Index(), name[s..], start, comp)
      {
        if name[i] == DOT {
          var lablen := |mb| - pos - 1;
          LabelEnds(name, s, i);
          WriterTurn(base, Index(), name[s..], start, comp);
          if lablen == 0 {
            buf := mb;
            return EINVAL;
          }
          SplitAtDot(name, s, i);
          mb := Patched(mb, pos, base, name[s..i]);
          var dn := Lookup(name[i + 1..]);
          if dn.Some? && comp {
            buf := mb + DnsCodec.Pointer(dn.value);
            return OK;
          }
          pos := |mb|;
          if dn.None? {
            AppendEntry(name[i + 1..], pos - start);
          }
          base, s := mb, i + 1;
          mb := mb + [0];
        } else {
          OneMore(base + [0], name, s, i);
          mb := mb + [name[i]];
        }
        i := i + 1;
      }
      LabelEnds(name, s, i);
      WriterTurn(base, Index(), name[s..], start, comp);
      assert name[s..i] == name[s..];
      if |mb| - pos - 1 > 0 {
        mb := Patched(mb, pos, base, name[s..]);
        mb := mb + [0];
      }
      buf := mb;
      err := OK;
    }
  }

  /** Fills in the length byte of a label that has just ended. */
  method Patched(mb: seq<byte>, pos: nat, ghost base: seq<byte>, ghost text: seq<byte>) returns (r: seq<byte>)
    requires |base| == pos && mb == base + [0] + text
    ensures r == base + [|text| % 256] + text
  {
    var n: byte := (|mb| - pos - 1) % 256;
    Backpatch(base, text, n);
    r := mb[pos := n];
  }

  lemma SplitAtDot(name: seq<byte>, s: nat, i: nat)
    requires s <= i < |name|
    ensures name[s..][..i - s] == name[s..i] && name[s..][i - s + 1..] == name[i + 1..]
  {
  }

  lemma Backpatch(base: seq<byte>, text: seq<byte>, n: byte)
    ensures (base + [0] + text)[|base| := n] == base + [n] + text
  {
  }

  lemma OneMore(pre: seq<byte>, name: seq<byte>, s: nat, i: nat)
    requires s <= i < |name|
    ensures pre + name[s..i] + [name[i]] == pre + name[s..i + 1]
  {
    assert name[s..i + 1] == name[s..i] + [name[i]];
  }

  lemma WriterTurn(base: seq<byte>, t: DnsCodec.Index, name: seq<byte>, start: nat, comp: bool)
    requires start <= |base|
    ensures var n := LabelLen(name);
            var w := DnsCodec.WriteLabel(base, t, name, start, comp);
            if name == [] then w == DnsCodec.Written(base + [0], t)
            else if n == 0 then w == DnsCodec.Failed(base + [0], t)
            else if n == |name| then w == DnsCodec.Written(base + [n % 256] + name + [0], t)
            else
              var pre, rest := base + [n % 256] + name[..n], name[n + 1..];
              var hit := DnsCodec.Lookup(t, rest);
              w == if hit.Some? && comp then DnsCodec.Written(pre + DnsCodec.Pointer(hit.value), t)
                   else DnsCodec.WriteLabel(pre, if hit.Some? then t else DnsCodec.Added(t, rest, |pre| - start),
                                            rest, start, comp)
  {
    hide DnsCodec.Lookup, DnsCodec.Added, DnsCodec.Pointer;
  }

  /** A label that starts at `s` ends at the first dot, or with the name. */
  lemma {:induction false} LabelEnds(name: seq<byte>, s: nat, i: nat)
    requires s <= i <= |name| && (i < |name| ==> name[i] == DOT)
    requires forall k :: s <= k < i ==> name[k] != DOT
    ensures LabelLen(name[s..]) == i - s
    decreases i - s
  {
    if s < i {
      assert name[s..][1..] == name[s + 1..];
      LabelEnds(name, s + 1, i);
    }
  }
}
