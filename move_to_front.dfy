/** Move-to-front coding (week5/MoveToFront.java): every byte is replaced by its
    current rank in a 256-entry table, and that entry is then moved to the front
    of the table, the entries before it shifting back by one. */
module MoveToFront {
  import opened Common

  /** The number of entries of the rank table, one per byte value. */
  const TableSize: nat := 256

  /** The table both directions start from: value v at position v. */
  function Identity(): (t: seq<byte>)
    ensures |t| == TableSize && forall i :: 0 <= i < TableSize ==> t[i] == i
    ensures IsTable(t)
  {
    var t := seq(TableSize, i requires 0 <= i < TableSize => i);
    assert t == Iota(TableSize);
    t
  }

  /** A rank table holds each of the 256 byte values exactly once. */
  ghost predicate IsTable(t: seq<byte>)
  {
    |t| == TableSize && IsPermutation(t, TableSize)
  }

  /** The table after the entry at pos is moved to the front. */
  function Rotated(t: seq<byte>, pos: nat): (r: seq<byte>)
    requires pos < |t|
    ensures |r| == |t| && r[0] == t[pos]
    ensures forall k :: 1 <= k <= pos ==> r[k] == t[k - 1]
    ensures forall k :: pos < k < |t| ==> r[k] == t[k]
  {
    [t[pos]] + t[..pos] + t[pos + 1..]
  }

  /** The first position of c in t. */
  function IndexOf(t: seq<byte>, c: byte): (r: nat)
    requires c in t
    ensures r < |t| && t[r] == c
    ensures forall k :: 0 <= k < r ==> t[k] != c
  {
    if t[0] == c then 0 else 1 + IndexOf(t[1..], c)
  }

  /** The ranks emitted for x when coding starts from table t. */
  function EncodeFrom(t: seq<byte>, x: seq<byte>): (r: seq<byte>)
    requires IsTable(t)
    ensures |r| == |x|
    decreases |x|
  {
    if x == [] then []
    else
      EveryByteInTable(t, x[0]);
      RotatedIsTable(t, IndexOf(t, x[0]));
      var pos := IndexOf(t, x[0]);
      [pos] + EncodeFrom(Rotated(t, pos), x[1..])
  }

  /** The bytes emitted for the ranks y when decoding starts from table t. */
  function DecodeFrom(t: seq<byte>, y: seq<byte>): (r: seq<byte>)
    requires |t| == TableSize
    ensures |r| == |y|
    decreases |y|
  {
    if y == [] then []
    else [t[y[0]]] + DecodeFrom(Rotated(t, y[0]), y[1..])
  }

  /** Moving an entry to the front keeps the table a permutation of the byte values. */
  lemma RotatedIsTable(t: seq<byte>, pos: nat)
    requires IsTable(t) && pos < |t|
    ensures IsTable(Rotated(t, pos))
  {
    assert t == t[..pos] + [t[pos]] + t[pos + 1..];
  }

  lemma EveryByteInTable(t: seq<byte>, c: byte)
    requires IsTable(t)
    ensures c in t
  {
    PermutationFacts(t, TableSize);
  }

  /** One step of the coding: the rank of the first byte, then the rest against the rotated table. */
  lemma EncodeStep(t: seq<byte>, x: seq<byte>)
    requires IsTable(t) && x != []
    ensures x[0] in t && IsTable(Rotated(t, IndexOf(t, x[0])))
    ensures EncodeFrom(t, x) == [IndexOf(t, x[0])] + EncodeFrom(Rotated(t, IndexOf(t, x[0])), x[1..])
  {
    EveryByteInTable(t, x[0]);
    RotatedIsTable(t, IndexOf(t, x[0]));
  }

  /** Output so far followed by the coding of x: emitting the rank of x's first byte
      moves that rank to the output and leaves the rest of x against the rotated table. */
  lemma EncodeAfter(out: seq<byte>, t: seq<byte>, x: seq<byte>)
    requires IsTable(t) && x != []
    ensures x[0] in t && IsTable(Rotated(t, IndexOf(t, x[0])))
    ensures out + EncodeFrom(t, x) ==
      (out + [IndexOf(t, x[0])]) + EncodeFrom(Rotated(t, IndexOf(t, x[0])), x[1..])
  {
    EncodeStep(t, x);
    var pos, rest := IndexOf(t, x[0]), EncodeFrom(Rotated(t, IndexOf(t, x[0])), x[1..]);
    assert out + ([pos] + rest) == (out + [pos]) + rest;
  }

  /** Moving the front entry to the front changes nothing. */
  lemma RotatedAtFront(t: seq<byte>)
    requires |t| > 0
    ensures Rotated(t, 0) == t
  {
  }

  /** Decoding the ranks of x from the same table gives x back. */
  lemma {:induction false} DecodeEncode(t: seq<byte>, x: seq<byte>)
    requires IsTable(t)
    ensures DecodeFrom(t, EncodeFrom(t, x)) == x
    decreases |x|
  {
    if x != [] {
      PermutationFacts(t, TableSize);
      var pos := IndexOf(t, x[0]);
      RotatedIsTable(t, pos);
      DecodeEncode(Rotated(t, pos), x[1..]);
      assert x == [x[0]] + x[1..];
    }
  }

  /** Encoding the bytes decoded from y from the same table gives y back. */
  lemma {:induction false} EncodeDecode(t: seq<byte>, y: seq<byte>)
    requires IsTable(t)
    ensures EncodeFrom(t, DecodeFrom(t, y)) == y
    decreases |y|
  {
    if y != [] {
      PermutationFacts(t, TableSize);
      var x := DecodeFrom(t, y);
      var pos := y[0];
      assert x[0] == t[pos] && x[1..] == DecodeFrom(Rotated(t, pos), y[1..]);
      assert IndexOf(t, t[pos]) == pos;
      RotatedIsTable(t, pos);
      EncodeDecode(Rotated(t, pos), y[1..]);
      assert y == [y[0]] + y[1..];
    }
  }

  /** A byte equal to the byte before it is coded as rank 0. */
  lemma {:induction false} RepeatEncodesZero(t: seq<byte>, x: seq<byte>, k: nat)
    requires IsTable(t)
    requires 0 < k < |x| && x[k] == x[k - 1]
    ensures EncodeFrom(t, x)[k] == 0
    decreases k
  {
    EveryByteInTable(t, x[0]);
    var pos := IndexOf(t, x[0]);
    var t' := Rotated(t, pos);
    assert IsTable(t') && EncodeFrom(t, x)[k] == EncodeFrom(t', x[1..])[k - 1] by {
      EncodeStep(t, x);
    }
    if k == 1 {
      assert t'[0] == x[1..][0] by {
        assert t'[0] == t[pos] == x[0] == x[1];
      }
      FrontEncodesZero(t', x[1..]);
    } else {
      assert x[1..][k - 1] == x[1..][k - 2];
      RepeatEncodesZero(t', x[1..], k - 1);
    }
  }

  /** A byte already at the front of the table is coded as rank 0. */
  lemma FrontEncodesZero(t: seq<byte>, x: seq<byte>)
    requires IsTable(t) && x != [] && t[0] == x[0]
    ensures EncodeFrom(t, x)[0] == 0
  {
    EncodeStep(t, x);
  }

  /** "AAAA" is coded as 65, 0, 0, 0. */
  lemma EncodeRunOfA()
    ensures EncodeFrom(Identity(), [65, 65, 65, 65]) == [65, 0, 0, 0]
  {
    var x: seq<byte> := [65, 65, 65, 65];
    assert Identity()[65] == 65;
    assert IndexOf(Identity(), 65) == 65;
    assert EncodeFrom(Identity(), x)[0] == 65;
    RepeatEncodesZero(Identity(), x, 1);
    RepeatEncodesZero(Identity(), x, 2);
    RepeatEncodesZero(Identity(), x, 3);
  }

  /** Moves the entry at pos to the front by swapping it with each entry before it. */
  method MoveToFront(table: array<byte>, pos: nat)
    requires pos < table.Length
    modifies table
    ensures table[..] == Rotated(old(table[..]), pos)
  {
    for i := 0 to pos
      invariant forall k :: 0 <= k < i ==> table[k] == if k == 0 then old(table[pos]) else old(table[k - 1])
      invariant table[pos] == if i == 0 then old(table[pos]) else old(table[i - 1])
      invariant forall k :: i <= k < table.Length && k != pos ==> table[k] == old(table[k])
    {
      table[i], table[pos] := table[pos], table[i];
    }
  }

  /** A fresh table holding the identity order. */
  method NewTable() returns (table: array<byte>)
    ensures fresh(table) && table[..] == Identity()
  {
    table := new byte[TableSize];
    for i := 0 to TableSize
      invariant forall k :: 0 <= k < i ==> table[k] == k
    {
      table[i] := i;
    }
  }

  /** Replaces every byte by its rank in a table that starts as the identity. */
  method Encode(input: seq<byte>) returns (output: seq<byte>)
    ensures output == EncodeFrom(Identity(), input)
  {
    var table := NewTable();
    output := [];
    var j := 0;
    while j < |input|
      invariant 0 <= j <= |input|
      invariant IsTable(table[..])
      invariant output + EncodeFrom(table[..], input[j..]) == EncodeFrom(Identity(), input)
    {
      var c := input[j];
      ghost var before := output;
      var pos := 0;
      var i := 0;
      while i < TableSize
        invariant 0 <= i <= TableSize
        invariant output == before
        invariant forall k :: 0 <= k < i ==> table[k] != c
      {
        if table[i] == c {
          pos := i;
          output := output + [i];
          break;
        }
        i := i + 1;
      }
      ghost var t := table[..];
      EveryByteInTable(t, c);
      assert pos == IndexOf(t, c) && output == before + [pos];
      EncodeAfter(before, t, input[j..]);
      assert input[j..][1..] == input[j + 1..];
      MoveToFront(table, pos);
      assert table[..] == Rotated(t, pos);
      j := j + 1;
    }
    assert input[j..] == [];
  }

  /** Replaces every rank by the byte at that rank in a table that starts as the identity. */
  method Decode(input: seq<byte>) returns (output: seq<byte>)
    ensures output == DecodeFrom(Identity(), input)
  {
    var table := NewTable();
    output := [];
    var j := 0;
    while j < |input|
      invariant 0 <= j <= |input|
      invariant table.Length == TableSize
      invariant output + DecodeFrom(table[..], input[j..]) == DecodeFrom(Identity(), input)
    {
      var pos := input[j];
      output := output + [table[pos]];
      MoveToFront(table, pos);
      assert input[j..][1..] == input[j + 1..];
      j := j + 1;
    }
    assert input[j..] == [];
  }

  /** Decoding what Encode emits gives the input back. */
  method RoundTrip(input: seq<byte>) returns (output: seq<byte>)
    ensures output == input
  {
    var ranks := Encode(input);
    output := Decode(ranks);
    DecodeEncode(Identity(), input);
  }
}
