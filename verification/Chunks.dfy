/** Splitting text into chunks of a bounded number of UTF-8 bytes (backend/zane_api/utils.py). */
module Chunks {
  import opened Text
  import opened Utf8

  // ---------------------------------------------------------------- where a chunk ends

  /** How many leading characters fit into `limit` bytes. */
  function Cut(s: string, limit: int): (k: nat)
    ensures k <= |s|
  {
    if s == "" || Width(s[0]) > limit then 0 else 1 + Cut(s[1..], limit - Width(s[0]))
  }

  lemma {:induction false} CutIsMost(s: string, limit: nat)
    ensures Size(s[..Cut(s, limit)]) <= limit
    ensures Cut(s, limit) < |s| ==> Size(s[..Cut(s, limit) + 1]) > limit
    decreases |s|
  {
    if s != "" {
      var k := Cut(s, limit);
      assert s[..1][1..] == "";
      if Width(s[0]) <= limit {
        CutIsMost(s[1..], limit - Width(s[0]));
        assert s[..k][1..] == s[1..][..k - 1];
        if k < |s| { assert s[..k + 1][1..] == s[1..][..k]; }
      }
    }
  }

  lemma {:induction false} FittingPrefix(s: string, limit: nat, k: nat)
    requires k <= |s| && Size(s[..k]) <= limit
    ensures k <= Cut(s, limit)
    decreases |s|
  {
    if k > 0 {
      assert s[..k][1..] == s[1..][..k - 1];
      FittingPrefix(s[1..], limit - Width(s[0]), k - 1);
    }
  }

  lemma CutIsShort(s: string, limit: nat)
    requires Size(s) > limit
    ensures Cut(s, limit) < |s|
    ensures Size(s[..Cut(s, limit)]) <= limit < Size(s[..Cut(s, limit) + 1])
  {
    CutIsMost(s, limit);
    assert s[..|s|] == s;
  }

  /** Going back from byte `limit` over continuation bytes ends where the last character that
      fits ends. */
  method LastBoundary(s: string, encoded: seq<byte>, limit: nat) returns (validEnd: nat)
    requires encoded == Encoded(s) && |encoded| > limit
    ensures Cut(s, limit) < |s| && validEnd == Size(s[..Cut(s, limit)])
  {
    ghost var k := Cut(s, limit);
    SizeIs(s);
    CutIsShort(s, limit);
    ghost var low := Size(s[..k]);
    validEnd := limit;
    while validEnd > 0 && IsContinuation(encoded[validEnd])
      invariant low <= validEnd <= limit
    {
      BytesOfOne(s, k, validEnd);
      validEnd := validEnd - 1;
    }
    BytesOfOne(s, k, validEnd);
  }

  // ---------------------------------------------------------------- all chunks

  /** Every character fits into a chunk of its own. */
  ghost predicate Fits(s: string, limit: nat) {
    forall i :: 0 <= i < |s| ==> Width(s[i]) <= limit
  }

  function Chunks(s: string, limit: nat): seq<string>
    requires Fits(s, limit)
    decreases |s|
  {
    if s == "" then []
    else if Size(s) <= limit then [s]
    else [s[..Cut(s, limit)]] + Chunks(s[Cut(s, limit)..], limit)
  }

  /** What is left after one turn of the loop of `truncate_utf8`. */
  function Turn(remaining: string, limit: nat): string {
    if Size(remaining) <= limit then "" else remaining[Cut(remaining, limit)..]
  }

  /** One turn, whatever the limit; with a character that is too wide in front it adds an empty
      chunk and leaves the text as it is. */
  method OneTurn(remaining: string, limit: nat) returns (chunk: string, rest: string)
    requires remaining != ""
    ensures rest == Turn(remaining, limit) && chunk + rest == remaining
    ensures Width(remaining[0]) > limit ==> chunk == "" && rest == remaining
  {
    var encoded := Encoded(remaining);
    SizeIs(remaining);
    if |encoded| <= limit { return remaining, ""; }
    var validEnd := LastBoundary(remaining, encoded, limit);
    DecodeHalves(remaining, Cut(remaining, limit));
    chunk, rest := Decode(encoded[..validEnd]), Decode(encoded[validEnd..]);
  }

  lemma ChunksTurn(s: string, chunk: string, limit: nat)
    requires Fits(s, limit) && s != "" && chunk + Turn(s, limit) == s
    ensures |Turn(s, limit)| < |s| && Fits(Turn(s, limit), limit)
    ensures Chunks(s, limit) == [chunk] + Chunks(Turn(s, limit), limit)
  {
    assert chunk == s[..|s| - |Turn(s, limit)|];
    if Size(s) <= limit {
      assert chunk == s;
    } else {
      assert Cut(s, limit) > 0 && chunk == s[..Cut(s, limit)];
    }
  }

  /** `truncate_utf8` */
  method TruncateUtf8(s: string, limit: nat) returns (result: seq<string>)
    requires Fits(s, limit)
    ensures result == Chunks(s, limit)
  {
    result := [];
    var remaining := s;
    while remaining != ""
      invariant Fits(remaining, limit) && result + Chunks(remaining, limit) == Chunks(s, limit)
      decreases |remaining|
    {
      var truncated, rest := OneTurn(remaining, limit);
      ChunksTurn(remaining, truncated, limit);
      result := result + [truncated];
      remaining := rest;
    }
  }

  // ---------------------------------------------------------------- what the chunks are

  function Concat(parts: seq<string>): string {
    if parts == [] then "" else parts[0] + Concat(parts[1..])
  }

  /** A split of `s` into pieces of at most `limit` bytes. */
  ghost predicate IsSplit(parts: seq<string>, s: string, limit: nat) {
    Concat(parts) == s && forall i :: 0 <= i < |parts| ==> Size(parts[i]) <= limit
  }

  lemma {:induction false} ChunksConcat(s: string, limit: nat)
    requires Fits(s, limit)
    ensures Concat(Chunks(s, limit)) == s
    decreases |s|
  {
    if s == "" {
    } else if Size(s) <= limit {
      assert [s][1..] == [] && s + "" == s;
    } else {
      var k := Cut(s, limit);
      ChunksConcat(s[k..], limit);
      assert Chunks(s, limit)[1..] == Chunks(s[k..], limit);
      assert s[..k] + s[k..] == s;
    }
  }

  lemma {:induction false} ChunkIsSmall(s: string, limit: nat, i: nat)
    requires Fits(s, limit) && i < |Chunks(s, limit)|
    ensures Size(Chunks(s, limit)[i]) <= limit
    decreases |s|
  {
    if i > 0 {
      ChunkIsSmall(s[Cut(s, limit)..], limit, i - 1);
    } else {
      CutIsMost(s, limit);
    }
  }

  /** The chunks put together are the text, and none has more than `limit` bytes. */
  lemma ChunksAreSplit(s: string, limit: nat)
    requires Fits(s, limit)
    ensures IsSplit(Chunks(s, limit), s, limit)
  {
    ChunksConcat(s, limit);
    forall i | 0 <= i < |Chunks(s, limit)| ensures Size(Chunks(s, limit)[i]) <= limit { ChunkIsSmall(s, limit, i); }
  }

  lemma {:induction false} NoChunkIsEmpty(s: string, limit: nat, i: nat)
    requires Fits(s, limit) && i < |Chunks(s, limit)|
    ensures Chunks(s, limit)[i] != ""
    decreases |s|
  {
    if i > 0 { NoChunkIsEmpty(s[Cut(s, limit)..], limit, i - 1); }
  }

  /** The end of a piece is no longer than the piece. */
  lemma EndIsShorter(p: string, k: nat)
    requires k <= |p|
    ensures Size(p[k..]) <= Size(p)
  {
    assert p == p[..k] + p[k..];
    SizeConcat(p[..k], p[k..]);
  }

  /** If a text starts with the end of a small enough piece, its first chunk covers that. */
  lemma FirstChunkCovers(p: string, d: nat, u: string, limit: nat)
    requires d <= |p| && Size(p) <= limit
    ensures |p| - d <= Cut(p[d..] + u, limit)
  {
    EndIsShorter(p, d);
    assert (p[d..] + u)[..|p| - d] == p[d..];
    FittingPrefix(p[d..] + u, limit, |p| - d);
  }

  /** Any split of a text has at least as many pieces as its end from character `d` on has
      chunks. */
  lemma {:induction false} ChunksAreFewest(parts: seq<string>, d: nat, limit: nat)
    requires d <= |Concat(parts)| && Fits(Concat(parts)[d..], limit)
    requires forall i :: 0 <= i < |parts| ==> Size(parts[i]) <= limit
    ensures |Chunks(Concat(parts)[d..], limit)| <= |parts|
    decreases |parts|
  {
    var t := Concat(parts)[d..];
    if t != "" {
      var p, u := parts[0], Concat(parts[1..]);
      if d >= |p| {
        assert t == u[d - |p|..];
        ChunksAreFewest(parts[1..], d - |p|, limit);
      } else if Size(t) > limit {
        assert t == p[d..] + u;
        FirstChunkCovers(p, d, u, limit);
        var k := Cut(t, limit) - (|p| - d);
        assert t[Cut(t, limit)..] == u[k..];
        ChunksAreFewest(parts[1..], k, limit);
      }
    }
  }

  /** No split into pieces of at most `limit` bytes has fewer pieces. */
  lemma NoSplitHasFewer(s: string, parts: seq<string>, limit: nat)
    requires Fits(s, limit) && IsSplit(parts, s, limit)
    ensures |Chunks(s, limit)| <= |parts|
  {
    assert Concat(parts)[0..] == s;
    ChunksAreFewest(parts, 0, limit);
  }

  // ---------------------------------------------------------------- when the loop ends

  function Turns(s: string, limit: nat, n: nat): string
    decreases n
  {
    if n == 0 || s == "" then s else Turns(Turn(s, limit), limit, n - 1)
  }

  /** A turn never gets past a character that is wider than the limit. */
  lemma {:induction false} CutStopsAtWide(s: string, limit: int, i: nat)
    requires i < |s| && Width(s[i]) > limit
    ensures Cut(s, limit) <= i
    decreases i
  {
    if i > 0 && Width(s[0]) <= limit { CutStopsAtWide(s[1..], limit - Width(s[0]), i - 1); }
  }

  lemma {:induction false} WideNeverEnds(s: string, limit: nat, i: nat, n: nat)
    requires i < |s| && Width(s[i]) > limit
    ensures Turns(s, limit, n) != ""
    decreases n
  {
    if n > 0 {
      assert s == s[..i] + s[i..];
      SizeConcat(s[..i], s[i..]);
      assert Size(s[i..]) >= Width(s[i]);
      CutStopsAtWide(s, limit, i);
      WideNeverEnds(Turn(s, limit), limit, i - Cut(s, limit), n - 1);
    }
  }

  lemma {:induction false} FitsEnds(s: string, limit: nat) returns (n: nat)
    requires Fits(s, limit)
    ensures Turns(s, limit, n) == ""
    decreases |s|
  {
    if s == "" {
      n := 0;
    } else {
      var m := FitsEnds(Turn(s, limit), limit);
      n := m + 1;
    }
  }

  /** The loop ends exactly when no character is wider than the limit; so with a limit of four
      bytes or more it always does. */
  lemma EndsIff(s: string, limit: nat)
    ensures (exists n: nat :: Turns(s, limit, n) == "") <==> Fits(s, limit)
    ensures limit >= 4 ==> Fits(s, limit)
  {
    if Fits(s, limit) {
      var n := FitsEnds(s, limit);
    } else {
      var i :| 0 <= i < |s| && Width(s[i]) > limit;
      forall n: nat ensures Turns(s, limit, n) != "" { WideNeverEnds(s, limit, i, n); }
    }
  }

  /** A two-byte character and a limit of one byte: every turn leaves the text as it was. */
  lemma WideCharacterLoops(n: nat)
    ensures !Fits("\U{00E9}", 1) && Turn("\U{00E9}", 1) == "\U{00E9}" && Turns("\U{00E9}", 1, n) == "\U{00E9}"
  {
    var s := "\U{00E9}";
    assert Width(s[0]) == 2;
    if n > 0 { WideCharacterLoops(n - 1); }
  }
}
