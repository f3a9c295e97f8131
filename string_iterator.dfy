/** `StringIteratorIO` (etl.py): a read-only text file over an iterator of string chunks,
    which `copy_from` reads from. The iterator is the sequence of chunks it will yield and a
    cursor saying how many it has yielded so far. */
module StringIterator {
  import opened Wrappers
  import opened Text

  function Min(a: int, b: int): int { if a <= b then a else b }

  /** `s[:n]` with Python's slicing rules: no bound takes everything, a non-negative bound is
      clamped to the length, and a negative bound counts from the end. */
  function SliceTo(s: string, n: Option<int>): (r: string)
    ensures r <= s
    ensures n.None? ==> r == s
    ensures n.Some? && n.value >= 0 ==> |r| == Min(n.value, |s|)
    ensures n.Some? && n.value < 0 ==> |r| == if |s| + n.value >= 0 then |s| + n.value else 0
  {
    match n
    case None => s
    case Some(k) =>
      if k >= 0 then (if k <= |s| then s[..k] else s)
      else if |s| + k >= 0 then s[..|s| + k]
      else ""
  }

  /** The buffer and cursor after `_read1`'s refill loop: while the buffer is empty, take the
      next chunk, until the iterator is exhausted. Empty chunks are skipped over. */
  function Refill(buff: string, source: seq<string>, cursor: nat): (r: (string, nat))
    requires cursor <= |source|
    ensures cursor <= r.1 <= |source|
    ensures r.0 + Concat(source[r.1..]) == buff + Concat(source[cursor..])
    ensures r.0 == "" ==> r.1 == |source|
    ensures buff != "" ==> r == (buff, cursor)
    decreases |source| - cursor
  {
    if buff != "" || cursor == |source| then (buff, cursor)
    else
      ConcatFrom(source, cursor);
      Refill(source[cursor], source, cursor + 1)
  }

  /** How many characters `read(n)` takes from a stream whose unread text is `rest`. */
  function ReadLength(rest: string, n: Option<int>): (k: nat)
    ensures k <= |rest|
    ensures (n.None? || n.value < 0) ==> k == |rest|
    ensures n.Some? && n.value >= 0 ==> k == Min(n.value, |rest|)
  {
    if n.None? || n.value < 0 then |rest| else Min(n.value, |rest|)
  }

  /** What `read(n)` returns when the unread text is `rest`. */
  function ReadResult(rest: string, n: Option<int>): (r: string)
    ensures r <= rest
    ensures (n.None? || n.value < 0) ==> r == rest
    ensures n.Some? && 0 <= n.value <= |rest| ==> |r| == n.value
    ensures n.Some? && n.value >= |rest| ==> r == rest
  {
    rest[..ReadLength(rest, n)]
  }

  /** The results of a series of `read` calls with the given arguments. */
  function Reads(rest: string, ns: seq<Option<int>>): seq<string>
    decreases |ns|
  {
    if ns == [] then []
    else
      var r := ReadResult(rest, ns[0]);
      [r] + Reads(rest[|r|..], ns[1..])
  }

  /** Whatever the series of reads, their results, joined, are a prefix of the stream:
      nothing is dropped, repeated or reordered. */
  lemma {:induction false} ReadsPartition(rest: string, ns: seq<Option<int>>)
    ensures Concat(Reads(rest, ns)) <= rest
    decreases |ns|
  {
    if ns != [] {
      var r := ReadResult(rest, ns[0]);
      ReadsPartition(rest[|r|..], ns[1..]);
      assert rest == r + rest[|r|..];
    }
  }

  /** Once a read without a bound, or with a negative one, has drained the stream, every later read returns `''`. */
  lemma {:induction false} ReadsAfterDrain(rest: string, ns: seq<Option<int>>, i: nat)
    requires 0 < i < |ns| + 1 && (ns[0].None? || ns[0].value < 0)
    ensures |Reads(rest, ns)| == |ns|
    ensures i < |ns| ==> Reads(rest, ns)[i] == ""
    decreases |ns|
  {
    ReadsLength(rest, ns);
    if i < |ns| {
      assert Reads(rest, ns)[i] == Reads("", ns[1..])[i - 1];
      ReadsOfEmpty(ns[1..], i - 1);
    }
  }

  lemma {:induction false} ReadsLength(rest: string, ns: seq<Option<int>>)
    ensures |Reads(rest, ns)| == |ns|
    decreases |ns|
  {
    if ns != [] {
      ReadsLength(rest[|ReadResult(rest, ns[0])|..], ns[1..]);
    }
  }

  lemma {:induction false} ReadsOfEmpty(ns: seq<Option<int>>, i: nat)
    requires i < |ns|
    ensures |Reads("", ns)| == |ns| && Reads("", ns)[i] == ""
    decreases |ns|
  {
    ReadsLength("", ns);
    if i > 0 {
      ReadsOfEmpty(ns[1..], i - 1);
    }
  }

  class StringIteratorIO {
    /** The chunks the wrapped iterator yields, in order. */
    const source: seq<string>
    /** How many chunks have been taken from the iterator (`_iter`'s position). */
    var cursor: nat
    /** `_buff`: the part of the last chunk taken that has not been read yet. */
    var buff: string
    /** Everything returned by reads so far. */
    ghost var delivered: string

    /** The text not read yet: the buffer, then the chunks still in the iterator. */
    ghost function Remaining(): string
      reads this
      requires cursor <= |source|
    {
      buff + Concat(source[cursor..])
    }

    /** What has been read and what remains partition the iterator's text. */
    ghost predicate Valid()
      reads this
    {
      cursor <= |source| && delivered + Remaining() == Concat(source)
    }

    /** `StringIteratorIO(iter)`: nothing read, an empty buffer. */
    constructor (chunks: seq<string>)
      ensures Valid()
      ensures source == chunks && cursor == 0 && buff == "" && delivered == ""
      ensures Remaining() == Concat(chunks)
    {
      source := chunks;
      cursor := 0;
      buff := "";
      delivered := "";
    }

    /** `readable()`. */
    function Readable(): (r: bool)
      ensures r
    {
      true
    }

    /** `_read1(n)`: refill the buffer if it is empty, then cut `buff[:n]` off its front. */
    method Read1(n: Option<int>) returns (ret: string)
      requires Valid()
      modifies this
      ensures Valid()
      ensures ret == SliceTo(Refill(old(buff), source, old(cursor)).0, n)
      ensures buff == Refill(old(buff), source, old(cursor)).0[|ret|..]
      ensures cursor == Refill(old(buff), source, old(cursor)).1
      ensures ret + Remaining() == old(Remaining())
      ensures delivered == old(delivered) + ret
      ensures ret == "" && (n.None? || n.value > 0) ==> buff == "" && cursor == |source|
    {
      FillBuffer();
      ret := TakeFront(n);
    }

    /** The second half of `_read1`: return `buff[:n]` and keep `buff[len(ret):]`. */
    method TakeFront(n: Option<int>) returns (ret: string)
      requires Valid()
      modifies this
      ensures Valid()
      ensures ret == SliceTo(old(buff), n) && buff == old(buff)[|ret|..] && cursor == old(cursor)
      ensures ret + Remaining() == old(Remaining())
      ensures delivered == old(delivered) + ret
    {
      ret := SliceTo(buff, n);
      assert buff == ret + buff[|ret|..];
      buff := buff[|ret|..];
      delivered := delivered + ret;
    }

    /** The first half of `_read1`: while the buffer is empty, take the next chunk from the
        iterator; stop when the iterator raises `StopIteration`. */
    method FillBuffer()
      requires Valid()
      modifies this
      ensures Valid()
      ensures (buff, cursor) == Refill(old(buff), source, old(cursor))
      ensures Remaining() == old(Remaining())
      ensures delivered == old(delivered)
    {
      while buff == ""
        invariant cursor <= |source|
        invariant Refill(buff, source, cursor) == Refill(old(buff), source, old(cursor))
        invariant Remaining() == old(Remaining())
        invariant delivered == old(delivered)
        decreases |source| - cursor
      {
        if cursor == |source| {
          break;
        }
        ConcatFrom(source, cursor);
        buff := source[cursor];
        cursor := cursor + 1;
      }
    }

    /** `read(n)`: with no bound or a negative one, everything that is left; otherwise take
        pieces until `n` characters are collected or the stream runs dry. */
    method Read(n: Option<int>) returns (r: string)
      requires Valid()
      modifies this
      ensures Valid()
      ensures r == ReadResult(old(Remaining()), n)
      ensures Remaining() == old(Remaining())[|r|..]
      ensures delivered == old(delivered) + r
    {
      if n.None? || n.value < 0 {
        r := ReadAll();
      } else {
        r := ReadUpTo(n.value);
      }
      assert old(Remaining()) == r + Remaining();
    }

    /** The unbounded branch of `read`: call `_read1()` until it returns `''`. */
    method ReadAll() returns (r: string)
      requires Valid()
      modifies this
      ensures Valid()
      ensures r == old(Remaining()) && Remaining() == ""
      ensures delivered == old(delivered) + r
    {
      var line: seq<string> := [];
      while true
        invariant Valid()
        invariant Concat(line) + Remaining() == old(Remaining())
        invariant delivered == old(delivered) + Concat(line)
        decreases |Remaining()|
      {
        var m := Read1(None);
        if m == "" {
          break;
        }
        ConcatAppend(line, m);
        line := line + [m];
      }
      r := Concat(line);
    }

    /** The bounded branch of `read`: call `_read1(n)` with what is still wanted, until
        nothing is wanted or `''` comes back. */
    method ReadUpTo(n: nat) returns (r: string)
      requires Valid()
      modifies this
      ensures Valid()
      ensures r + Remaining() == old(Remaining())
      ensures |r| == Min(n, |old(Remaining())|)
      ensures delivered == old(delivered) + r
    {
      ghost var start := Remaining();
      var line: seq<string> := [];
      var k := n;
      while k > 0
        invariant Valid()
        invariant 0 <= k <= n
        invariant Concat(line) + Remaining() == start
        invariant |Concat(line)| == n - k
        invariant delivered == old(delivered) + Concat(line)
        decreases k
      {
        var m := Read1(Some(k));
        if m == "" {
          assert Remaining() == "";
          break;
        }
        ConcatAppend(line, m);
        k := k - |m|;
        line := line + [m];
      }
      r := Concat(line);
      assert |r| + |Remaining()| == |start|;
    }
  }
}
