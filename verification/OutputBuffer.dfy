/** The bounded output a job keeps. */
module OutputBuffers {
  import opened Bytes

  /** The retained bytes, the capacity, and how many bytes were given up. */
  datatype Output = Output(bytes: seq<Byte>, capacity: nat, discarded: nat) {
    predicate Valid() {
      0 < capacity && |bytes| <= capacity
    }
  }

  function KeepLast<T>(s: seq<T>, n: nat): (r: seq<T>)
    ensures |r| == (if |s| <= n then |s| else n) && r == s[|s| - |r|..]
  {
    if |s| <= n then s else s[|s| - n..]
  }

  lemma KeepLastTwice<T>(a: seq<T>, b: seq<T>, n: nat)
    ensures KeepLast(KeepLast(a, n) + b, n) == KeepLast(a + b, n)
  {
    var kept := KeepLast(a, n);
    assert a == a[..|a| - |kept|] + kept;
    assert a + b == a[..|a| - |kept|] + (kept + b);
  }

  // Keeps as many of the newest bytes as fit and counts the others.
  function Append(o: Output, chunk: seq<Byte>): (r: Output)
    ensures r.capacity == o.capacity && (o.Valid() ==> r.Valid())
    ensures r.discarded + |r.bytes| == o.discarded + |o.bytes| + |chunk|
  {
    var kept := KeepLast(o.bytes + chunk, o.capacity);
    Output(kept, o.capacity, o.discarded + |o.bytes| + |chunk| - |kept|)
  }

  function Total(chunks: seq<seq<Byte>>): seq<Byte> {
    if chunks == [] then [] else Total(chunks[..|chunks| - 1]) + chunks[|chunks| - 1]
  }

  function AppendAll(o: Output, chunks: seq<seq<Byte>>): (r: Output)
    ensures r.capacity == o.capacity && (o.Valid() ==> r.Valid())
  {
    if chunks == [] then o else Append(AppendAll(o, chunks[..|chunks| - 1]), chunks[|chunks| - 1])
  }

  /** After any appends the buffer holds the newest bytes of everything appended, and counts the rest. */
  lemma {:induction false} HoldsTheNewestBytes(capacity: nat, chunks: seq<seq<Byte>>)
    requires capacity > 0
    ensures var r := AppendAll(Output([], capacity, 0), chunks);
            && r.bytes == KeepLast(Total(chunks), capacity)
            && r.discarded == |Total(chunks)| - |r.bytes|
  {
    if chunks != [] {
      var before := chunks[..|chunks| - 1];
      HoldsTheNewestBytes(capacity, before);
      KeepLastTwice(Total(before), chunks[|chunks| - 1], capacity);
    }
  }

  class OutputBuffer {
    var bytes: seq<Byte>
    const capacity: nat
    var discardedBytes: nat

    function State(): Output
      reads this
    {
      Output(bytes, capacity, discardedBytes)
    }

    constructor (capacity: nat)
      requires capacity > 0
      ensures State() == Output([], capacity, 0) && State().Valid()
    {
      this.capacity := capacity;
      bytes, discardedBytes := [], 0;
    }

    // The source reports a zero capacity instead of building a buffer.
    static method New(capacity: nat) returns (buffer: OutputBuffer?)
      ensures buffer == null <==> capacity == 0
      ensures buffer != null ==> fresh(buffer) && buffer.State() == Output([], capacity, 0)
    {
      if capacity == 0 { return null; }
      buffer := new OutputBuffer(capacity);
    }

    method AppendBytes(chunk: seq<Byte>)
      requires State().Valid()
      modifies this
      ensures State() == Append(old(State()), chunk)
    {
      var overflow := if |bytes| + |chunk| > capacity then |bytes| + |chunk| - capacity else 0;
      var discarded := if overflow < |bytes| then overflow else |bytes|;
      bytes := bytes[discarded..];
      var inputStart := if |chunk| > capacity then |chunk| - capacity else 0;
      discardedBytes := discardedBytes + overflow;
      bytes := bytes + chunk[inputStart..];
    }
  }
}
