/** Text helpers used when rendering messages: truncation with an ellipsis and
    packing lines into bounded, stripped chunks. */
module Text {
  import opened Chars

  const Ellipsis: string := "\U{2026}"

  /** `limit_str(s, n)`: `s` itself when it fits, otherwise its first `n - 1`
      characters (none when `n < 1`) followed by a single ellipsis. */
  function LimitStr(s: string, n: int): (r: string)
    ensures |s| <= n ==> r == s
    ensures |s| > n ==> |r| == (if n >= 1 then n else 1)
    ensures |s| > n ==> r[|r| - 1] == Ellipsis[0] && IsPrefix(r[..|r| - 1], s)
    ensures |r| <= |s| || |r| == 1
    ensures n >= 1 ==> |r| <= n
  {
    if |s| <= n then s
    else
      var keep := if n - 1 > 0 then n - 1 else 0;
      var r := s[..keep] + Ellipsis;
      assert |r| == keep + 1 && r[..keep] == s[..keep] && r[keep] == Ellipsis[0];
      r
  }

  /** Plain concatenation of a list of strings (`"".join(parts)`). */
  function Concat(parts: seq<string>): string {
    if parts == [] then [] else parts[0] + Concat(parts[1..])
  }

  lemma {:induction false} ConcatSnoc(parts: seq<string>, s: string)
    ensures Concat(parts + [s]) == Concat(parts) + s
  {
    if parts == [] {
      assert parts + [s] == [s];
      assert Concat([s]) == s + Concat([]);
    } else {
      assert (parts + [s])[1..] == parts[1..] + [s];
      ConcatSnoc(parts[1..], s);
      assert parts[0] + (Concat(parts[1..]) + s) == (parts[0] + Concat(parts[1..])) + s;
    }
  }

  predicate LinesFit(lines: seq<string>, maxLen: int) {
    forall k | 0 <= k < |lines| :: |lines[k]| + 1 <= maxLen
  }

  /** Every chunk is non-empty and already stripped (hence never blank). */
  predicate AllClean(chunks: seq<string>) {
    forall k | 0 <= k < |chunks| :: chunks[k] != [] && Strip(chunks[k]) == chunks[k]
  }

  predicate AllWithin(chunks: seq<string>, maxLen: int) {
    forall k | 0 <= k < |chunks| :: |chunks[k]| <= maxLen
  }

  /** `chunk_text_lines(lines, max_len)`: accumulates `line + "\n"` into the
      current chunk, starts a new chunk when the next line would overflow
      `max_len`, and emits each finished chunk stripped, skipping blank ones. */
  method ChunkTextLines(lines: seq<string>, maxLen: int) returns (chunks: seq<string>)
    ensures lines == [] ==> chunks == []
    ensures AllClean(chunks)
    ensures LinesFit(lines, maxLen) ==> AllWithin(chunks, maxLen)
    ensures NonSpace(Concat(chunks)) == NonSpace(Concat(lines))
  {
    chunks := [];
    var cur: string := "";
    var i := 0;
    while i < |lines|
      invariant 0 <= i <= |lines|
      invariant i == 0 ==> cur == [] && chunks == []
      invariant AllClean(chunks)
      invariant LinesFit(lines, maxLen) ==> cur == [] || |cur| <= maxLen
      invariant LinesFit(lines, maxLen) ==> AllWithin(chunks, maxLen)
      invariant NonSpace(Concat(chunks)) + NonSpace(cur) == NonSpace(Concat(lines[..i]))
    {
      LineContent(lines, i);
      chunks, cur := Feed(chunks, cur, lines[i], maxLen);
      i := i + 1;
    }
    assert lines[..i] == lines;
    chunks := Emit(chunks, cur, maxLen);
  }

  /** One step of the loop: `line + "\n"` joins the current chunk, or the
      current chunk is emitted first when the line would overflow it. */
  method Feed(chunks: seq<string>, cur: string, line: string, maxLen: int) returns (chunks': seq<string>, cur': string)
    ensures AllClean(chunks) ==> AllClean(chunks')
    ensures NonSpace(Concat(chunks')) + NonSpace(cur') == NonSpace(Concat(chunks)) + NonSpace(cur) + NonSpace(line + "\n")
    ensures |line| + 1 <= maxLen && (cur == [] || |cur| <= maxLen) && AllWithin(chunks, maxLen) ==>
              (cur' == [] || |cur'| <= maxLen) && AllWithin(chunks', maxLen)
  {
    var add := line + "\n";
    if |cur| + |add| > maxLen {
      chunks' := Emit(chunks, cur, maxLen);
      cur' := add;
    } else {
      NonSpaceConcat(cur, add);
      chunks', cur' := chunks, cur + add;
    }
  }

  lemma LineContent(lines: seq<string>, i: int)
    requires 0 <= i < |lines|
    ensures NonSpace(Concat(lines[..i + 1])) == NonSpace(Concat(lines[..i])) + NonSpace(lines[i] + "\n")
  {
    NonSpaceConcat(lines[i], "\n");
    assert NonSpace("\n") == [];
    assert lines[..i + 1] == lines[..i] + [lines[i]];
    ConcatSnoc(lines[..i], lines[i]);
    NonSpaceConcat(Concat(lines[..i]), lines[i]);
  }

  /** Appends `Strip(cur)` to the finished chunks unless it is blank. */
  method Emit(chunks: seq<string>, cur: string, ghost bound: int) returns (out: seq<string>)
    ensures NonSpace(Concat(out)) == NonSpace(Concat(chunks)) + NonSpace(cur)
    ensures Strip(cur) == [] ==> out == chunks
    ensures Strip(cur) != [] ==> out == chunks + [Strip(cur)]
    ensures AllClean(chunks) ==> AllClean(out)
    ensures AllWithin(chunks, bound) && (cur == [] || |cur| <= bound) ==> AllWithin(out, bound)
  {
    var s := Strip(cur);
    if s != [] {
      out := chunks + [s];
      EmitContent(chunks, cur);
      EmitClean(chunks, cur);
      EmitWithin(chunks, cur, bound);
    } else {
      out := chunks;
      BlankContent(chunks, cur);
    }
  }

  lemma EmitContent(chunks: seq<string>, cur: string)
    ensures NonSpace(Concat(chunks + [Strip(cur)])) == NonSpace(Concat(chunks)) + NonSpace(cur)
  {
    var s := Strip(cur);
    StripKeepsNonSpace(cur);
    ConcatSnoc(chunks, s);
    NonSpaceConcat(Concat(chunks), s);
  }

  lemma BlankContent(chunks: seq<string>, cur: string)
    requires Strip(cur) == []
    ensures NonSpace(Concat(chunks)) == NonSpace(Concat(chunks)) + NonSpace(cur)
  {
    BlankHasNoContent(cur);
    var x := NonSpace(Concat(chunks));
    assert x + [] == x;
  }

  lemma BlankHasNoContent(cur: string)
    requires Strip(cur) == []
    ensures NonSpace(cur) == []
  {
    StripKeepsNonSpace(cur);
    assert NonSpace([]) == [];
  }

  lemma EmitClean(chunks: seq<string>, cur: string)
    requires Strip(cur) != []
    ensures AllClean(chunks) ==> AllClean(chunks + [Strip(cur)])
  {
    var s := Strip(cur);
    StripIdempotent(cur);
    var out := chunks + [s];
    if AllClean(chunks) {
      forall k | 0 <= k < |out| ensures out[k] != [] && Strip(out[k]) == out[k] {
        if k < |chunks| {
          assert out[k] == chunks[k];
        }
      }
    }
  }

  lemma EmitWithin(chunks: seq<string>, cur: string, bound: int)
    requires Strip(cur) != []
    ensures AllWithin(chunks, bound) && (cur == [] || |cur| <= bound) ==> AllWithin(chunks + [Strip(cur)], bound)
  {
    var s := Strip(cur);
    var out := chunks + [s];
    if AllWithin(chunks, bound) && (cur == [] || |cur| <= bound) {
      assert |s| <= |TrimStart(cur)| <= |cur|;
      forall k | 0 <= k < |out| ensures |out[k]| <= bound {
        if k < |chunks| {
          assert out[k] == chunks[k];
        }
      }
    }
  }
}
