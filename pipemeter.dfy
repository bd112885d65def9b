/**
 * pipemeter.py: relay the output of one command into another, counting
 * the bytes.
 *
 * The producer is the sequence of chunks its successive reads return
 * (a read past the end returns nothing, that is, end of stream); the
 * consumer's `write` is an oracle giving the count it accepted, by call
 * number and data; the two exit statuses are what `wait` returns.
 */
module PipeMeter {

  const ChunkSize: nat := 65536

  type Byte = b: int | 0 <= b < 256
  type Chunk = seq<Byte>

  /** The result tuple, or the RuntimeError of a short write. */
  datatype Outcome =
    | Finished(status1: int, status2: int, bytesPiped: nat)
    | ShortWrite(wanted: nat, written: int)

  /** What the i-th `read(CHUNKSIZE)` returns. */
  function ReadAt(input: seq<Chunk>, i: nat): Chunk
  {
    if i < |input| then input[i] else []
  }

  /** The index of the first zero-length read. */
  function FirstEmpty(input: seq<Chunk>): (k: nat)
    ensures k <= |input|
    ensures k < |input| ==> input[k] == []
    ensures forall j :: 0 <= j < k ==> input[j] != []
  {
    if |input| == 0 then 0
    else if input[0] == [] then 0
    else 1 + FirstEmpty(input[1..])
  }

  /** The index of the first write, among the first `k` chunks, that accepts fewer bytes than it is given. */
  function FirstShort(input: seq<Chunk>, accept: (nat, Chunk) -> int, k: nat): (j: nat)
    requires k <= |input|
    ensures j <= k
    ensures j < k ==> accept(j, input[j]) != |input[j]|
    ensures forall i :: 0 <= i < j ==> accept(i, input[i]) == |input[i]|
  {
    if k == 0 then 0
    else
      var j := FirstShort(input, accept, k - 1);
      if j < k - 1 then j
      else if accept(k - 1, input[k - 1]) != |input[k - 1]| then k - 1
      else k
  }

  function TotalLength(chunks: seq<Chunk>): nat
  {
    if |chunks| == 0 then 0
    else TotalLength(chunks[..|chunks| - 1]) + |chunks[|chunks| - 1]|
  }

  function Concat(chunks: seq<Chunk>): Chunk
  {
    if |chunks| == 0 then []
    else Concat(chunks[..|chunks| - 1]) + chunks[|chunks| - 1]
  }

  /** The sum of what the first `k` writes accepted. */
  function SumAccepted(input: seq<Chunk>, accept: (nat, Chunk) -> int, k: nat): int
    requires k <= |input|
  {
    if k == 0 then 0
    else SumAccepted(input, accept, k - 1) + accept(k - 1, input[k - 1])
  }

  /**
   * Lines 16-33. The loop reads until the first zero-length read, writes
   * every non-empty chunk once and whole, in read order, counts it only
   * after its write was accepted in full, and raises on the first short
   * write; on normal return it reports both exit statuses unchanged.
   */
  method Pipemeter(input: seq<Chunk>, accept: (nat, Chunk) -> int, status1: int, status2: int)
    returns (outcome: Outcome, written: seq<Chunk>)
    requires forall i :: 0 <= i < |input| ==> |input[i]| <= ChunkSize
    ensures var k := FirstEmpty(input);
            var j := FirstShort(input, accept, k);
            && (j == k ==> outcome == Finished(status1, status2, TotalLength(input[..k])) &&
                           written == input[..k])
            && (j < k ==> outcome == ShortWrite(|input[j]|, accept(j, input[j])) &&
                          written == input[..j + 1])
    ensures forall i :: 0 <= i < |written| ==> 0 < |written[i]| <= ChunkSize
  {
    var bytesPiped: nat := 0;
    var i: nat := 0;
    written := [];
    while true
      invariant i <= FirstEmpty(input)
      invariant forall j :: 0 <= j < i ==> accept(j, input[j]) == |input[j]|
      invariant written == input[..i]
      invariant bytesPiped == TotalLength(input[..i])
      decreases |input| - i
    {
      var data := ReadAt(input, i);
      var length := |data|;
      if length == 0 {
        break;
      }
      var n := accept(i, data);
      written := written + [data];
      if n != length {
        outcome := ShortWrite(length, n);
        assert FirstShort(input, accept, FirstEmpty(input)) == i;
        assert written == input[..i + 1];
        return;
      }
      assert input[..i + 1][..i] == input[..i];
      bytesPiped := bytesPiped + length;
      i := i + 1;
    }
    assert i == FirstEmpty(input);
    outcome := Finished(status1, status2, bytesPiped);
  }

  /** The count equals the length of everything relayed. */
  lemma {:induction false} CountIsRelayedLength(chunks: seq<Chunk>)
    ensures TotalLength(chunks) == |Concat(chunks)|
  {
    if |chunks| > 0 {
      CountIsRelayedLength(chunks[..|chunks| - 1]);
    }
  }

  /** When no write was short, the count is exactly the sum of what the writes accepted. */
  lemma {:induction false} CountIsAccepted(input: seq<Chunk>, accept: (nat, Chunk) -> int, k: nat)
    requires k <= |input|
    requires FirstShort(input, accept, k) == k
    ensures TotalLength(input[..k]) == SumAccepted(input, accept, k)
  {
    if k > 0 {
      assert FirstShort(input, accept, k - 1) == k - 1;
      CountIsAccepted(input, accept, k - 1);
      assert input[..k][..k - 1] == input[..k - 1];
    }
  }

  /** Chunks after the first zero-length read are never looked at. */
  lemma OutcomeIgnoresLaterInput(a: seq<Chunk>, b: seq<Chunk>, accept: (nat, Chunk) -> int)
    ensures var r1 := a + [[]] + b;
            var r2 := a + [[]];
            var k := FirstEmpty(r1);
            && k == FirstEmpty(r2)
            && r1[..k] == r2[..k]
            && FirstShort(r1, accept, k) == FirstShort(r2, accept, k)
  {
    var r1 := a + [[]] + b;
    var r2 := a + [[]];
    assert r1[|a|] == [] && r2[|a|] == [];
    assert forall j :: 0 <= j <= |a| ==> r1[j] == r2[j];
    var k := FirstEmpty(r1);
    assert k == FirstEmpty(r2);
    FirstShortPrefix(r1, r2, accept, k);
  }

  lemma {:induction false} FirstShortPrefix(r1: seq<Chunk>, r2: seq<Chunk>, accept: (nat, Chunk) -> int, k: nat)
    requires k <= |r1| && k <= |r2|
    requires forall j :: 0 <= j < k ==> r1[j] == r2[j]
    ensures FirstShort(r1, accept, k) == FirstShort(r2, accept, k)
  {
    if k > 0 {
      FirstShortPrefix(r1, r2, accept, k - 1);
    }
  }
}
