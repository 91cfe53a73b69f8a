/**
 The byte-bounded log buffer (wifi/ringbuffer.cpp). It keeps whole messages and drops the
 oldest ones until the rest fits.
 */
module RingBuffers {
  import opened Bytes

  type Message = seq<Byte>

  /** The length of all the messages together. */
  function Total(messages: seq<Message>): nat {
    if messages == [] then 0 else |messages[0]| + Total(messages[1..])
  }

  lemma {:induction false} TotalAppend(a: seq<Message>, b: seq<Message>)
    ensures Total(a + b) == Total(a) + Total(b)
  {
    if a == [] {
      assert a + b == b;
    } else {
      TotalAppend(a[1..], b);
      assert (a + b)[1..] == a[1..] + b;
    }
  }

  /** The bytes of the messages, one message after the other. */
  function Joined(messages: seq<Message>): seq<Byte> {
    if messages == [] then [] else messages[0] + Joined(messages[1..])
  }

  /** What is bounded is the number of bytes. */
  lemma {:induction false} TotalCountsBytes(messages: seq<Message>)
    ensures Total(messages) == |Joined(messages)|
  {
    if messages != [] {
      TotalCountsBytes(messages[1..]);
    }
  }

  /** Empty and oversized messages are not taken. */
  predicate Acceptable(message: Message, maxSize: nat) {
    0 < |message| <= maxSize
  }

  /** `kept` is the longest suffix of `all` that fits: one message more would be too many. */
  ghost predicate IsLongestFittingSuffix(kept: seq<Message>, all: seq<Message>, maxSize: nat) {
    exists k: nat :: k <= |all| && IsFittingSuffixAt(k, kept, all, maxSize)
  }

  predicate IsFittingSuffixAt(k: nat, kept: seq<Message>, all: seq<Message>, maxSize: nat)
    requires k <= |all|
  {
    && kept == all[k..]
    && Total(kept) <= maxSize
    && (k > 0 ==> Total(all[k - 1..]) > maxSize)
  }

  /** The list without as many of its oldest messages as it takes to make the rest fit. */
  function Trimmed(messages: seq<Message>, maxSize: nat): seq<Message> {
    if Total(messages) <= maxSize then messages else Trimmed(messages[1..], maxSize)
  }

  function Appended(messages: seq<Message>, input: Message, maxSize: nat): seq<Message> {
    if Acceptable(input, maxSize) then Trimmed(messages + [input], maxSize) else messages
  }

  class RingBuffer {
    const maxSize: nat
    var data: seq<Message>
    var size: nat

    ghost predicate Valid()
      reads this
    {
      size == Total(data)
    }

    constructor (maxSize: nat)
      ensures Valid() && this.maxSize == maxSize && data == []
    {
      this.maxSize := maxSize;
      data, size := [], 0;
    }

    method Append(input: Message)
      requires Valid()
      modifies this
      ensures Valid()
      ensures data == Appended(old(data), input, maxSize)
      ensures |input| == 0 || |input| > maxSize ==> data == old(data)
      ensures 0 < |input| <= maxSize ==> IsLongestFittingSuffix(data, old(data) + [input], maxSize)
    {
      if |input| == 0 || |input| > maxSize {
        return;
      }
      TotalAppend(data, [input]);
      assert (data + [input])[0..] == data + [input];
      TrimmedIsLongest(data + [input], 0, maxSize);
      data := data + [input];
      size := size + |input|;
      while size > maxSize
        invariant Valid()
        invariant Trimmed(data, maxSize) == Trimmed(old(data) + [input], maxSize)
        decreases |data|
      {
        size := size - |data[0]|;
        data := data[1..];
      }
    }

    method GetData() returns (messages: seq<Message>)
      ensures messages == data
    {
      messages := data;
    }
  }

  /** If one more old message was too many before, it is so after another one came in. */
  lemma GrownSuffix(k: nat, kept: seq<Message>, all: seq<Message>, input: Message, maxSize: nat)
    requires k <= |all| && IsFittingSuffixAt(k, kept, all, maxSize)
    ensures kept + [input] == (all + [input])[k..]
    ensures k > 0 ==> Total((all + [input])[k - 1..]) > maxSize
  {
    if k > 0 {
      assert (all + [input])[k - 1..] == all[k - 1..] + [input];
      TotalAppend(all[k - 1..], [input]);
    }
  }

  /** What is kept is determined by what was taken and by the bound, whatever the order of evictions. */
  lemma LongestFittingSuffixIsUnique(kept: seq<Message>, kept': seq<Message>, all: seq<Message>, maxSize: nat)
    requires IsLongestFittingSuffix(kept, all, maxSize) && IsLongestFittingSuffix(kept', all, maxSize)
    ensures kept == kept'
  {
    var k: nat :| k <= |all| && IsFittingSuffixAt(k, kept, all, maxSize);
    var k': nat :| k' <= |all| && IsFittingSuffixAt(k', kept', all, maxSize);
    NoEarlierSuffixFits(k, kept, k', kept', all, maxSize);
    NoEarlierSuffixFits(k', kept', k, kept, all, maxSize);
  }

  lemma NoEarlierSuffixFits(k: nat, kept: seq<Message>, k': nat, kept': seq<Message>, all: seq<Message>, maxSize: nat)
    requires k <= |all| && k' <= |all|
    requires IsFittingSuffixAt(k, kept, all, maxSize) && IsFittingSuffixAt(k', kept', all, maxSize)
    ensures k' <= k
  {
    if k < k' {
      ShorterSuffixIsShorter(all, k, k' - 1);
    }
  }

  lemma ShorterSuffixIsShorter(all: seq<Message>, k: nat, k': nat)
    requires k <= k' <= |all|
    ensures Total(all[k'..]) <= Total(all[k..])
  {
    assert all[k..] == all[k..k'] + all[k'..];
    TotalAppend(all[k..k'], all[k'..]);
  }

  /** Nothing is lost while everything fits. */
  lemma AllKeptIfAllFits(kept: seq<Message>, all: seq<Message>, maxSize: nat)
    requires IsLongestFittingSuffix(kept, all, maxSize)
    ensures kept == all <==> Total(all) <= maxSize
  {
    var k: nat :| k <= |all| && IsFittingSuffixAt(k, kept, all, maxSize);
    if k > 0 {
      ShorterSuffixIsShorter(all, 0, k - 1);
      assert all[0..] == all;
    } else {
      assert all[0..] == all;
    }
  }

  // --- Whole runs ---

  /** The messages of a run of appends that are taken. */
  function Taken(inputs: seq<Message>, maxSize: nat): seq<Message> {
    if inputs == [] then []
    else
      var last := |inputs| - 1;
      Taken(inputs[..last], maxSize) + (if Acceptable(inputs[last], maxSize) then [inputs[last]] else [])
  }

  /** What an empty buffer holds after a run of appends. */
  function Contents(inputs: seq<Message>, maxSize: nat): seq<Message> {
    if inputs == [] then []
    else
      var last := |inputs| - 1;
      Appended(Contents(inputs[..last], maxSize), inputs[last], maxSize)
  }

  /** Trimming stops at the first suffix that fits. */
  lemma {:induction false} TrimmedIsLongest(all: seq<Message>, k: nat, maxSize: nat)
    requires k <= |all| && (k > 0 ==> Total(all[k - 1..]) > maxSize)
    ensures IsLongestFittingSuffix(Trimmed(all[k..], maxSize), all, maxSize)
    decreases |all| - k
  {
    if Total(all[k..]) <= maxSize {
      assert IsFittingSuffixAt(k, all[k..], all, maxSize);
    } else {
      assert all[k..][1..] == all[k + 1..];
      TrimmedIsLongest(all, k + 1, maxSize);
    }
  }

  /** After any run of appends the buffer holds exactly the longest suffix of the messages taken whose
      total length fits. */
  lemma {:induction false} AppendsKeepLongestFittingSuffix(inputs: seq<Message>, maxSize: nat)
    ensures IsLongestFittingSuffix(Contents(inputs, maxSize), Taken(inputs, maxSize), maxSize)
  {
    if inputs == [] {
      assert IsFittingSuffixAt(0, [], [], maxSize);
    } else {
      var last := |inputs| - 1;
      var kept, all := Contents(inputs[..last], maxSize), Taken(inputs[..last], maxSize);
      AppendsKeepLongestFittingSuffix(inputs[..last], maxSize);
      var k: nat :| k <= |all| && IsFittingSuffixAt(k, kept, all, maxSize);
      if Acceptable(inputs[last], maxSize) {
        GrownSuffix(k, kept, all, inputs[last], maxSize);
        TrimmedIsLongest(all + [inputs[last]], k, maxSize);
      } else {
        assert all + [] == all;
      }
    }
  }

  /** Eviction never reaches the message just taken. */
  lemma {:induction false} NewestMessageStays(messages: seq<Message>, input: Message, maxSize: nat)
    requires Acceptable(input, maxSize)
    ensures var kept := Trimmed(messages + [input], maxSize);
            kept != [] && kept[|kept| - 1] == input
  {
    var all := messages + [input];
    if Total(all) > maxSize {
      if messages == [] {
        TotalAppend([], [input]);
      } else {
        assert all[1..] == messages[1..] + [input];
        NewestMessageStays(messages[1..], input, maxSize);
      }
    }
  }
}
