/** The framing of the ciphertext file: decimal blocks, each ended by one NUL
    byte. `Tokens` is what the scan in the decoder's main loop extracts, block
    by block; `Join` is the framing that writes blocks back into a buffer. */
module Blocks {
  import opened Text
  import opened Numerals

  /** The blocks the scan takes from `b`, in order: each the maximal run of
      non-NUL bytes from the scan position, after which the scan resumes one
      past the NUL that ended it. The end of the buffer also ends a block. */
  function Tokens(b: seq<byte>): seq<seq<byte>>
    decreases |b|
  {
    if b == [] then []
    else
      var k := FirstIndex(b, NUL);
      if k == |b| then [b] else [b[..k]] + Tokens(b[k + 1..])
  }

  /** Each block followed by one NUL. */
  function Join(ts: seq<seq<byte>>): (b: seq<byte>)
    ensures b == [] || b[|b| - 1] == NUL
  {
    if ts == [] then [] else ts[0] + [NUL] + Join(ts[1..])
  }

  /** A buffer that ends in NUL (or is empty) is framed exactly. */
  predicate Terminated(b: seq<byte>)
  {
    b == [] || b[|b| - 1] == NUL
  }

  /** A ciphertext buffer of decimal blocks: nothing but digits and NULs. */
  predicate DecimalBlocks(b: seq<byte>)
  {
    forall i :: 0 <= i < |b| ==> b[i] == NUL || IsDigit(b[i], 10)
  }

  /** Only the empty buffer has no blocks. */
  lemma TokensEmpty(b: seq<byte>)
    ensures Tokens(b) == [] <==> b == []
  {
    if b != [] {
      TokensFirst(b, FirstIndex(b, NUL));
    }
  }

  /** No block holds a NUL. */
  lemma {:induction false} TokensHaveNoNul(b: seq<byte>)
    ensures forall i :: 0 <= i < |Tokens(b)| ==> NUL !in Tokens(b)[i]
    decreases |b|
  {
    if b != [] {
      var k := FirstIndex(b, NUL);
      if k < |b| {
        TokensHaveNoNul(b[k + 1..]);
      }
    }
  }

  /** Every block of a buffer of digits and NULs is a decimal digit string
      (possibly empty). */
  lemma {:induction false} TokensAreDecimal(b: seq<byte>)
    requires DecimalBlocks(b)
    ensures forall i :: 0 <= i < |Tokens(b)| ==> Digits(Tokens(b)[i], 10)
    decreases |b|
  {
    if b != [] {
      var k := FirstIndex(b, NUL);
      if k < |b| {
        TokensAreDecimal(b[k + 1..]);
      }
    }
  }

  /** The blocks, each followed by one NUL, give back the buffer: all of it
      when it ends in NUL, else with one NUL added. */
  lemma {:induction false} JoinTokens(b: seq<byte>)
    ensures Join(Tokens(b)) == if Terminated(b) then b else b + [NUL]
    decreases |b|
  {
    if b != [] {
      var k := FirstIndex(b, NUL);
      if k == |b| {
        assert Join(Tokens(b)) == b + [NUL] + Join([]);
      } else {
        var rest := b[k + 1..];
        JoinTokens(rest);
        JoinFirstToken(b, k);
      }
    }
  }

  /** The inductive step of `JoinTokens`: a buffer whose first NUL is at `k`. */
  lemma JoinFirstToken(b: seq<byte>, k: nat)
    requires k < |b| && k == FirstIndex(b, NUL)
    requires Join(Tokens(b[k + 1..])) ==
      if Terminated(b[k + 1..]) then b[k + 1..] else b[k + 1..] + [NUL]
    ensures Join(Tokens(b)) == if Terminated(b) then b else b + [NUL]
  {
    var t, rest := b[..k], b[k + 1..];
    SplitAt(b, k);
    assert Tokens(b) == [t] + Tokens(rest);
    JoinCons(t, Tokens(rest));
    FramedAfter(t, rest);
  }

  /** A NUL-ended block in front keeps the framing of what follows. */
  lemma FramedAfter(t: seq<byte>, rest: seq<byte>)
    ensures Terminated(t + [NUL] + rest) == Terminated(rest)
    ensures t + [NUL] + (rest + [NUL]) == t + [NUL] + rest + [NUL]
  {
    var b := t + [NUL] + rest;
    if rest != [] {
      assert b[|b| - 1] == rest[|rest| - 1];
    }
  }

  lemma SplitAt(b: seq<byte>, k: nat)
    requires k < |b| && b[k] == NUL
    ensures b == b[..k] + [NUL] + b[k + 1..]
  {
  }

  lemma JoinCons(t: seq<byte>, ts: seq<seq<byte>>)
    ensures Join([t] + ts) == t + [NUL] + Join(ts)
  {
    assert ([t] + ts)[0] == t && ([t] + ts)[1..] == ts;
  }

  /** There is one block per NUL, empty blocks between adjacent NULs
      included, and one more for an unterminated tail. */
  lemma {:induction false} CountTokens(b: seq<byte>)
    ensures |Tokens(b)| == multiset(b)[NUL] + if Terminated(b) then 0 else 1
    decreases |b|
  {
    if b != [] {
      var k := FirstIndex(b, NUL);
      if k == |b| {
        assert NUL !in multiset(b);
      } else {
        var t, rest := b[..k], b[k + 1..];
        CountTokens(rest);
        SplitAt(b, k);
        FramedAfter(t, rest);
        assert |Tokens(b)| == 1 + |Tokens(rest)|;
        assert NUL !in multiset(t);
        assert multiset(b) == multiset(t) + multiset([NUL]) + multiset(rest);
      }
    }
  }

  /** Scanning a framed buffer gives back exactly the blocks framed into it,
      empty ones included: `Tokens` inverts `Join`. */
  lemma {:induction false} TokensOfJoin(ts: seq<seq<byte>>)
    requires forall i :: 0 <= i < |ts| ==> NUL !in ts[i]
    ensures Tokens(Join(ts)) == ts
    decreases |ts|
  {
    if ts != [] {
      var b := Join(ts);
      var rest := Join(ts[1..]);
      assert b == ts[0] + [NUL] + rest;
      FirstIndexUnique(b, NUL, |ts[0]|);
      assert b[..|ts[0]|] == ts[0];
      assert b[|ts[0]| + 1..] == rest;
      TokensOfJoin(ts[1..]);
    }
  }

  /** Framing decimal blocks gives a buffer of digits and NULs. */
  lemma {:induction false} JoinDecimal(ts: seq<seq<byte>>)
    requires forall i :: 0 <= i < |ts| ==> Digits(ts[i], 10)
    ensures DecimalBlocks(Join(ts))
    decreases |ts|
  {
    if ts != [] {
      var t, rest := ts[0], Join(ts[1..]);
      JoinDecimal(ts[1..]);
      var b := Join(ts);
      assert b == t + [NUL] + rest;
      forall i | 0 <= i < |b|
        ensures b[i] == NUL || IsDigit(b[i], 10)
      {
        if i < |t| {
          assert b[i] == t[i];
        } else if i > |t| {
          assert b[i] == rest[i - |t| - 1];
        }
      }
    }
  }

  /** One step of the scan: the block at position `start` runs to the first
      NUL at or after it (or the buffer end), and scanning resumes one past
      that NUL. */
  lemma ScanStep(b: seq<byte>, start: nat, stop: nat)
    requires start <= stop <= |b| && start < |b|
    requires forall j :: start <= j < stop ==> b[j] != NUL
    requires stop < |b| ==> b[stop] == NUL
    ensures stop < |b| ==> Tokens(b[start..]) == [b[start..stop]] + Tokens(b[stop + 1..])
    ensures stop == |b| ==> Tokens(b[start..]) == [b[start..stop]]
  {
    var s, k := b[start..], stop - start;
    FirstNulFrom(b, start, stop);
    TokensFirst(s, k);
    SubSlices(b, start, stop);
  }

  /** Where the scan from `start` stops, seen from inside the slice. */
  lemma FirstNulFrom(b: seq<byte>, start: nat, stop: nat)
    requires start <= stop <= |b|
    requires forall j :: start <= j < stop ==> b[j] != NUL
    requires stop < |b| ==> b[stop] == NUL
    ensures FirstIndex(b[start..], NUL) == stop - start
  {
    var s, k := b[start..], stop - start;
    assert forall j :: 0 <= j < k ==> s[j] != NUL;
    FirstIndexUnique(s, NUL, k);
  }

  lemma SubSlices(b: seq<byte>, start: nat, stop: nat)
    requires start <= stop <= |b|
    ensures b[start..][..stop - start] == b[start..stop]
    ensures stop < |b| ==> b[start..][stop - start + 1..] == b[stop + 1..]
    ensures stop == |b| ==> b[start..] == b[start..stop]
  {
  }

  /** The first block of a non-empty buffer ends at its first NUL. */
  lemma TokensFirst(s: seq<byte>, k: nat)
    requires s != [] && k == FirstIndex(s, NUL)
    ensures k == |s| ==> Tokens(s) == [s]
    ensures k < |s| ==> Tokens(s) == [s[..k]] + Tokens(s[k + 1..])
  {
  }
}
