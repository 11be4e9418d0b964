/** The header token decoder of `CustomHeaderModelBinder`: every raw value of a
    header is split on the characters ' ' and ',' with empty pieces dropped
    (.NET `String.Split(char[], StringSplitOptions.RemoveEmptyEntries)`), and
    the pieces of all values are concatenated in order (`SelectMany`). There is
    no trimming: any other character, a tab included, stays inside its token. */
module HeaderSplit {

  /** The two delimiter characters passed to `Split`. */
  predicate IsSeparator(c: char) {
    c == ' ' || c == ','
  }

  /** A piece that `RemoveEmptyEntries` keeps: non-empty and free of delimiters. */
  predicate IsToken(t: string) {
    |t| > 0 && forall i :: 0 <= i < |t| ==> !IsSeparator(t[i])
  }

  predicate AllTokens(ts: seq<string>) {
    forall k :: 0 <= k < |ts| ==> IsToken(ts[k])
  }

  predicate AllSeparators(s: string) {
    forall i :: 0 <= i < |s| ==> IsSeparator(s[i])
  }

  /** Length of the longest delimiter-free prefix of `s`. */
  function TokenLength(s: string): (n: nat)
    ensures n <= |s|
    ensures forall i :: 0 <= i < n ==> !IsSeparator(s[i])
    ensures n < |s| ==> IsSeparator(s[n])
  {
    if s == [] || IsSeparator(s[0]) then 0 else 1 + TokenLength(s[1..])
  }

  /** `s.Split(new[] { ' ', ',' }, StringSplitOptions.RemoveEmptyEntries)`. */
  function SplitOne(s: string): (r: seq<string>)
    ensures AllTokens(r)
    decreases |s|
  {
    if s == [] then []
    else if IsSeparator(s[0]) then SplitOne(s[1..])
    else
      var n := TokenLength(s);
      [s[..n]] + SplitOne(s[n..])
  }

  /** `values.SelectMany(x => SplitOne(x)).ToArray()`. */
  function Decode(values: seq<string>): (r: seq<string>)
    ensures AllTokens(r)
  {
    if values == [] then [] else SplitOne(values[0]) + Decode(values[1..])
  }

  // ---------------------------------------------------------------------------
  // Reference definitions the decoder is measured against.

  /** All strings of `ts` written one after the other. */
  function Concat(ts: seq<string>): string {
    if ts == [] then "" else ts[0] + Concat(ts[1..])
  }

  /** `s` with every ' ' and ',' removed. */
  function RemoveSeparators(s: string): string {
    if s == [] then ""
    else if IsSeparator(s[0]) then RemoveSeparators(s[1..])
    else [s[0]] + RemoveSeparators(s[1..])
  }

  /** The strings of `ts` with the single character `d` between neighbours
      (`string.Join(d, ts)`). */
  function JoinWith(ts: seq<string>, d: char): string {
    if |ts| == 0 then ""
    else if |ts| == 1 then ts[0]
    else ts[0] + [d] + JoinWith(ts[1..], d)
  }

  /** Number of positions where a token begins: a non-delimiter that is the
      first character, or (when `afterSeparator`) follows a delimiter. */
  function TokenStarts(s: string, afterSeparator: bool): nat {
    if s == [] then 0
    else
      (if afterSeparator && !IsSeparator(s[0]) then 1 else 0)
      + TokenStarts(s[1..], IsSeparator(s[0]))
  }

  /** Token starts summed over all values. */
  function TotalTokenStarts(values: seq<string>): nat {
    if values == [] then 0 else TokenStarts(values[0], true) + TotalTokenStarts(values[1..])
  }

  // ---------------------------------------------------------------------------
  // Helper facts about the reference definitions.

  lemma {:induction false} ConcatAppend(a: seq<string>, b: seq<string>)
    ensures Concat(a + b) == Concat(a) + Concat(b)
  {
    if a == [] {
      assert a + b == b;
    } else {
      assert (a + b)[1..] == a[1..] + b;
      ConcatAppend(a[1..], b);
    }
  }

  lemma {:induction false} RemoveSeparatorsAppend(a: string, b: string)
    ensures RemoveSeparators(a + b) == RemoveSeparators(a) + RemoveSeparators(b)
  {
    if a == [] {
      assert a + b == b;
    } else {
      assert (a + b)[1..] == a[1..] + b;
      RemoveSeparatorsAppend(a[1..], b);
    }
  }

  lemma {:induction false} RemoveSeparatorsOfToken(s: string)
    requires forall i :: 0 <= i < |s| ==> !IsSeparator(s[i])
    ensures RemoveSeparators(s) == s
  {
    if s != [] {
      RemoveSeparatorsOfToken(s[1..]);
    }
  }

  lemma {:induction false} RemoveSeparatorsEmpty(s: string)
    ensures RemoveSeparators(s) == "" <==> AllSeparators(s)
  {
    if s != [] {
      RemoveSeparatorsEmpty(s[1..]);
      if AllSeparators(s) {
        assert AllSeparators(s[1..]) by {
          forall i | 0 <= i < |s[1..]| ensures IsSeparator(s[1..][i]) {
            assert s[1..][i] == s[i + 1];
          }
        }
      } else if IsSeparator(s[0]) {
        var j :| 0 <= j < |s| && !IsSeparator(s[j]);
        assert s[1..][j - 1] == s[j];
      }
    }
  }

  /** The delimiter-free prefix of a concatenation. */
  lemma {:induction false} TokenLengthAppend(a: string, b: string)
    ensures TokenLength(a + b)
            == if TokenLength(a) < |a| then TokenLength(a) else |a| + TokenLength(b)
  {
    if a == [] {
      assert a + b == b;
    } else if !IsSeparator(a[0]) {
      assert (a + b)[1..] == a[1..] + b;
      TokenLengthAppend(a[1..], b);
    }
  }

  // ---------------------------------------------------------------------------
  // Laws of SplitOne.

  /** A value that is itself a token splits into just that token. */
  lemma SplitOneOfToken(t: string)
    requires IsToken(t)
    ensures SplitOne(t) == [t]
  {
    assert TokenLength(t) == |t|;
    assert t[..|t|] == t;
    assert t[|t|..] == [];
  }

  /** A delimiter cuts: the pieces of `a + [d] + b` are those of `a`, then
      those of `b`. */
  lemma {:induction false} SplitOneAtSeparator(a: string, d: char, b: string)
    requires IsSeparator(d)
    ensures SplitOne(a + [d] + b) == SplitOne(a) + SplitOne(b)
    decreases |a|
  {
    var s := a + [d] + b;
    if a == [] {
      assert s == [d] + b;
      assert s[1..] == b;
    } else if IsSeparator(a[0]) {
      assert s[1..] == a[1..] + [d] + b;
      SplitOneAtSeparator(a[1..], d, b);
    } else {
      var n := TokenLength(a);
      TokenLengthAppend(a, [d] + b);
      assert s == a + ([d] + b);
      assert TokenLength(s) == n;
      assert s[..n] == a[..n];
      assert s[n..] == a[n..] + [d] + b;
      SplitOneAtSeparator(a[n..], d, b);
    }
  }

  /** Splitting undoes joining with a delimiter: tokens joined by ' ' or ','
      split back into the same tokens. */
  lemma {:induction false} SplitJoinRoundTrip(ts: seq<string>, d: char)
    requires IsSeparator(d) && AllTokens(ts)
    ensures SplitOne(JoinWith(ts, d)) == ts
  {
    if |ts| == 1 {
      SplitOneOfToken(ts[0]);
    } else if |ts| > 1 {
      SplitOneOfToken(ts[0]);
      SplitJoinRoundTrip(ts[1..], d);
      SplitOneAtSeparator(ts[0], d, JoinWith(ts[1..], d));
      assert [ts[0]] + ts[1..] == ts;
    }
  }

  /** Splitting values joined with a delimiter gives the tokens of each value
      in turn, as if they had been split one by one. */
  lemma {:induction false} SplitJoined(values: seq<string>, d: char)
    requires IsSeparator(d)
    ensures SplitOne(JoinWith(values, d)) == Decode(values)
  {
    if |values| == 1 {
      DecodeSingle(values[0]);
    } else if |values| > 1 {
      SplitJoined(values[1..], d);
      SplitOneAtSeparator(values[0], d, JoinWith(values[1..], d));
    }
  }

  /** Re-serialising the tokens of a value with single delimiters and
      splitting again yields the same tokens. */
  lemma SplitOneNormalises(s: string, d: char)
    requires IsSeparator(d)
    ensures SplitOne(JoinWith(SplitOne(s), d)) == SplitOne(s)
  {
    SplitJoinRoundTrip(SplitOne(s), d);
  }

  /** Characters are preserved: the tokens of `s`, laid end to end, are `s`
      with its delimiters removed. */
  lemma {:induction false} SplitOneChars(s: string)
    ensures Concat(SplitOne(s)) == RemoveSeparators(s)
    decreases |s|
  {
    if s != [] {
      if IsSeparator(s[0]) {
        SplitOneChars(s[1..]);
      } else {
        var n := TokenLength(s);
        SplitOneChars(s[n..]);
        ConcatAppend([s[..n]], SplitOne(s[n..]));
        assert Concat([s[..n]]) == s[..n];
        assert s == s[..n] + s[n..];
        RemoveSeparatorsAppend(s[..n], s[n..]);
        RemoveSeparatorsOfToken(s[..n]);
      }
    }
  }

  /** A value yields no token exactly when it consists of delimiters only. */
  lemma SplitOneEmptyIff(s: string)
    ensures SplitOne(s) == [] <==> AllSeparators(s)
  {
    SplitOneChars(s);
    RemoveSeparatorsEmpty(s);
    var r := SplitOne(s);
    if r != [] {
      ConcatAppend([r[0]], r[1..]);
      assert r == [r[0]] + r[1..];
      assert Concat([r[0]]) == r[0];
    }
  }

  /** Skipping the rest of a token does not change the number of token starts
      still ahead. */
  lemma {:induction false} TokenStartsSkip(s: string)
    ensures TokenStarts(s, false) == TokenStarts(s[TokenLength(s)..], true)
  {
    if s != [] && !IsSeparator(s[0]) {
      TokenStartsSkip(s[1..]);
      assert s[1..][TokenLength(s[1..])..] == s[TokenLength(s)..];
    }
  }

  /** The number of tokens is the number of places where a token begins. */
  lemma {:induction false} SplitOneCount(s: string)
    ensures |SplitOne(s)| == TokenStarts(s, true)
    decreases |s|
  {
    if s != [] {
      if IsSeparator(s[0]) {
        SplitOneCount(s[1..]);
      } else {
        var n := TokenLength(s);
        SplitOneCount(s[n..]);
        TokenStartsSkip(s[1..]);
        assert s[1..][TokenLength(s[1..])..] == s[n..];
      }
    }
  }

  // ---------------------------------------------------------------------------
  // Laws of Decode.

  /** Decoding distributes over concatenation of value lists, so the order of
      the values and of the tokens inside each value is kept. */
  lemma {:induction false} DecodeAppend(a: seq<string>, b: seq<string>)
    ensures Decode(a + b) == Decode(a) + Decode(b)
  {
    if a == [] {
      assert a + b == b;
    } else {
      assert (a + b)[1..] == a[1..] + b;
      DecodeAppend(a[1..], b);
    }
  }

  /** A single value contributes exactly its own pieces. */
  lemma DecodeSingle(s: string)
    ensures Decode([s]) == SplitOne(s)
  {
    assert [s][1..] == [];
  }

  /** Characters are preserved across all values. */
  lemma {:induction false} DecodeChars(values: seq<string>)
    ensures Concat(Decode(values)) == RemoveSeparators(Concat(values))
  {
    if values != [] {
      DecodeChars(values[1..]);
      SplitOneChars(values[0]);
      ConcatAppend(SplitOne(values[0]), Decode(values[1..]));
      RemoveSeparatorsAppend(values[0], Concat(values[1..]));
    }
  }

  /** Decoding a sequence of tokens gives it back. */
  lemma {:induction false} DecodeOfTokens(ts: seq<string>)
    requires AllTokens(ts)
    ensures Decode(ts) == ts
  {
    if ts != [] {
      SplitOneOfToken(ts[0]);
      DecodeOfTokens(ts[1..]);
      assert [ts[0]] + ts[1..] == ts;
    }
  }

  /** Decoding is idempotent. */
  lemma DecodeIdempotent(values: seq<string>)
    ensures Decode(Decode(values)) == Decode(values)
  {
    DecodeOfTokens(Decode(values));
  }

  /** A value made only of delimiters contributes no token wherever it stands. */
  lemma SeparatorOnlyValueIgnored(a: seq<string>, s: string, b: seq<string>)
    requires AllSeparators(s)
    ensures Decode(a + [s] + b) == Decode(a) + Decode(b)
  {
    SplitOneEmptyIff(s);
    DecodeAppend(a + [s], b);
    DecodeAppend(a, [s]);
    DecodeSingle(s);
  }

  /** Values made of delimiters only decode to no tokens at all. */
  lemma {:induction false} DecodeAllSeparators(values: seq<string>)
    requires forall i :: 0 <= i < |values| ==> AllSeparators(values[i])
    ensures Decode(values) == []
  {
    if values != [] {
      SplitOneEmptyIff(values[0]);
      DecodeAllSeparators(values[1..]);
    }
  }

  /** The number of tokens is the sum of the token starts of all values. */
  lemma {:induction false} DecodeCount(values: seq<string>)
    ensures |Decode(values)| == TotalTokenStarts(values)
  {
    if values != [] {
      SplitOneCount(values[0]);
      DecodeCount(values[1..]);
    }
  }

  // ---------------------------------------------------------------------------
  // Worked examples.

  lemma DecodeExampleMixed()
    ensures Decode(["a,b c", "d"]) == ["a", "b", "c", "d"]
  {
    assert "a,b c" == "a" + [','] + "b c";
    assert "b c" == "b" + [' '] + "c";
    SplitOneAtSeparator("a", ',', "b c");
    SplitOneAtSeparator("b", ' ', "c");
    SplitOneOfToken("a");
    SplitOneOfToken("b");
    SplitOneOfToken("c");
    SplitOneOfToken("d");
    DecodeAppend(["a,b c"], ["d"]);
    DecodeSingle("a,b c");
    DecodeSingle("d");
  }

  lemma DecodeExampleEmptyPieces()
    ensures Decode(["a,,b"]) == ["a", "b"]
  {
    assert "a,,b" == "a" + [','] + ",b";
    assert ",b" == "" + [','] + "b";
    SplitOneAtSeparator("a", ',', ",b");
    SplitOneAtSeparator("", ',', "b");
    SplitOneOfToken("a");
    SplitOneOfToken("b");
    DecodeSingle("a,,b");
  }

  /** A tab is not a delimiter: it stays inside the token. */
  lemma DecodeExampleTab()
    ensures Decode(["a\tb"]) == ["a\tb"]
  {
    SplitOneOfToken("a\tb");
    DecodeSingle("a\tb");
  }
}
