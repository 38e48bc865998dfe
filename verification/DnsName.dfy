/** Domain names as text and as label lists, up to ASCII case. */
module DnsName {
  import opened Bytes

  const DOT: byte := 46

  function Lower(c: byte): byte {
    if 65 <= c <= 90 then c + 32 else c
  }

  /** Equality up to ASCII case, what str_casecmp() tests. */
  predicate SameCI(a: seq<byte>, b: seq<byte>) {
    |a| == |b| && forall i :: 0 <= i < |a| ==> Lower(a[i]) == Lower(b[i])
  }

  lemma SameCIConcat(a: seq<byte>, b: seq<byte>, c: seq<byte>, d: seq<byte>)
    requires SameCI(a, b) && SameCI(c, d)
    ensures SameCI(a + c, b + d)
  {
    forall i | 0 <= i < |a + c| ensures Lower((a + c)[i]) == Lower((b + d)[i]) {
      if i >= |a| { assert (a + c)[i] == c[i - |a|] && (b + d)[i] == d[i - |a|]; }
    }
  }

  /** Length of the first label. */
  function LabelLen(name: seq<byte>): (n: nat)
    ensures n <= |name| && (n < |name| ==> name[n] == DOT)
    ensures forall i :: 0 <= i < n ==> name[i] != DOT
  {
    if name == [] || name[0] == DOT then 0 else 1 + LabelLen(name[1..])
  }

  /** A name is well formed when no label is empty, except the root after a final dot. */
  predicate Good(name: seq<byte>) {
    var n := LabelLen(name);
    name == [] || (n > 0 && (n == |name| || Good(name[n + 1..])))
  }

  /** The names that can be written: well-formed ones and the root name. */
  predicate Writable(name: seq<byte>) {
    Good(name) || name == [DOT]
  }

  function Labels(name: seq<byte>): seq<seq<byte>> {
    var n := LabelLen(name);
    if name == [] || name == [DOT] then []
    else [name[..n]] + if n == |name| then [] else Labels(name[n + 1..])
  }

  /** Labels as text, separated by dots. */
  function Text(ls: seq<seq<byte>>): seq<byte> {
    if ls == [] then [] else if |ls| == 1 then ls[0] else ls[0] + [DOT] + Text(ls[1..])
  }

  /** Names equal up to case have the same label boundaries. */
  lemma {:induction false} LabelLenCI(a: seq<byte>, b: seq<byte>)
    requires SameCI(a, b)
    ensures LabelLen(a) == LabelLen(b)
  {
    if a != [] && a[0] != DOT {
      assert Lower(a[0]) == Lower(b[0]);
      LabelLenCI(a[1..], b[1..]);
    } else if a != [] {
      assert Lower(a[0]) == Lower(b[0]);
    }
  }

  predicate SameLabels(xs: seq<seq<byte>>, ys: seq<seq<byte>>) {
    |xs| == |ys| && forall i :: 0 <= i < |xs| ==> SameCI(xs[i], ys[i])
  }

  lemma {:induction false} LabelsTurn(name: seq<byte>)
    ensures var n := LabelLen(name);
            Labels(name) == if name == [] || name == [DOT] then []
                            else [name[..n]] + if n == |name| then [] else Labels(name[n + 1..])
  {
  }

  lemma SlicesCI(a: seq<byte>, b: seq<byte>, n: nat)
    requires SameCI(a, b) && n <= |a|
    ensures SameCI(a[..n], b[..n]) && (n < |a| ==> SameCI(a[n + 1..], b[n + 1..]))
  {
  }

  lemma RootCI(a: seq<byte>, b: seq<byte>)
    requires SameCI(a, b)
    ensures a == [DOT] <==> b == [DOT]
  {
    if a != [] { assert Lower(a[0]) == Lower(b[0]); }
  }

  /** The first label of a name, if it has one that is not the root, and the rest. */
  predicate HasRest(name: seq<byte>) {
    name != [] && name != [DOT] && LabelLen(name) < |name|
  }

  function RestOf(name: seq<byte>): seq<byte>
    requires HasRest(name)
  {
    name[LabelLen(name) + 1..]
  }

  lemma {:induction false} RestCI(a: seq<byte>, b: seq<byte>)
    requires SameCI(a, b)
    ensures HasRest(a) <==> HasRest(b)
    ensures HasRest(a) ==> SameCI(RestOf(a), RestOf(b)) && |RestOf(a)| < |a|
  {
    LabelLenCI(a, b);
    RootCI(a, b);
    SlicesCI(a, b, LabelLen(a));
    hide LabelLen, SameCI;
  }

  lemma {:induction false} FirstCI(a: seq<byte>, b: seq<byte>)
    requires SameCI(a, b)
    requires HasRest(a) && HasRest(b) ==> SameLabels(Labels(RestOf(a)), Labels(RestOf(b)))
    ensures SameLabels(Labels(a), Labels(b))
  {
    LabelLenCI(a, b);
    RootCI(a, b);
    var n := LabelLen(a);
    SlicesCI(a, b, n);
    NoLabels();
    LabelsTurn(a);
    LabelsTurn(b);
    hide Labels, LabelLen, SameCI, SameLabels;
    if HasRest(a) {
      OneMoreLabel(a[..n], b[..n], Labels(RestOf(a)), Labels(RestOf(b)));
    } else {
      OneMoreLabel(a[..n], b[..n], [], []);
    }
  }

  lemma {:induction false} LabelsCI(a: seq<byte>, b: seq<byte>)
    requires SameCI(a, b)
    ensures SameLabels(Labels(a), Labels(b))
    decreases |a|
  {
    hide SameCI, SameLabels, Labels, HasRest, RestOf;
    RestCI(a, b);
    if HasRest(a) { LabelsCI(RestOf(a), RestOf(b)); }
    FirstCI(a, b);
  }

  lemma NoLabels()
    ensures SameLabels([], [])
  {
  }

  lemma OneMoreLabel(x: seq<byte>, y: seq<byte>, xs: seq<seq<byte>>, ys: seq<seq<byte>>)
    requires SameCI(x, y) && SameLabels(xs, ys)
    ensures SameLabels([x] + xs, [y] + ys)
  {
    hide SameCI;
  }

  /** The name without a final dot. */
  function Stripped(name: seq<byte>): seq<byte> {
    if name != [] && name[|name| - 1] == DOT then name[..|name| - 1] else name
  }

  lemma {:induction false} TextTurn(l: seq<byte>, ls: seq<seq<byte>>)
    ensures Text([l] + ls) == if ls == [] then l else l + [DOT] + Text(ls)
    ensures Text([]) == []
  {
    assert ([l] + ls)[1..] == ls;
  }

  lemma {:induction false} GoodTurn(name: seq<byte>)
    requires Good(name) && name != []
    ensures LabelLen(name) > 0 && name != [DOT]
    ensures LabelLen(name) < |name| ==> Good(name[LabelLen(name) + 1..])
  {
  }

  lemma StrippedTurn(first: seq<byte>, rest: seq<byte>)
    requires rest != []
    ensures Stripped(first + [DOT] + rest) == first + [DOT] + Stripped(rest)
  {
    var name := first + [DOT] + rest;
    assert name[|name| - 1] == rest[|rest| - 1];
    assert name[..|name| - 1] == first + [DOT] + rest[..|rest| - 1];
  }

  lemma {:induction false} TextOfLabels(name: seq<byte>)
    requires Writable(name)
    ensures Text(Labels(name)) == Stripped(name)
    decreases |name|
  {
    hide Labels, LabelLen, Text, Good;
    LabelsTurn(name);
    TextTurn([], []);
    if name != [] && name != [DOT] {
      GoodTurn(name);
      var n := LabelLen(name);
      var first := name[..n];
      if n == |name| {
        assert name[|name| - 1] != DOT by { NoDot(name); }
        TextTurn(first, []);
        assert first == name && [first] + [] == [first];
      } else {
        var rest := name[n + 1..];
        assert name == first + [DOT] + rest;
        TextTurn(first, Labels(rest));
        LabelsTurn(rest);
        if rest != [] {
          GoodTurn(rest);
          TextOfLabels(rest);
          StrippedTurn(first, rest);
        }
      }
    }
  }

  lemma NoDot(name: seq<byte>)
    requires name != [] && LabelLen(name) == |name|
    ensures name[|name| - 1] != DOT
  {
  }
}
