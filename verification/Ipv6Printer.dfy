/** The printing of addresses into character buffers. */
module Ipv6Printer {
  import opened Basics
  import opened CText
  import opened Numerals
  import opened Ipv6Text

  /** The size of the local buffer: the longest form foreseen, and a NUL. */
  const TMP_SIZE: nat := 46

  method Put(a: array<char>, tp: nat, c: char) returns (end: nat)
    requires tp < a.Length
    modifies a
    ensures end == tp + 1 && a[..end] == old(a[..tp]) + [c]
  {
    a[tp] := c;
    end := tp + 1;
  }

  /** `_inet_ntop4` into the part of `dst` that begins at `tp` and has `size` places. */
  method InetNtop4(src: seq<Byte>, dst: array<char>, tp: nat, size: nat) returns (ok: bool, end: nat)
    requires |src| == 4 && tp + size <= dst.Length
    modifies dst
    ensures ok <==> |Dotted(src)| < size
    ensures ok ==> end == tp + |Dotted(src)| && dst[..end] == old(dst[..tp]) + Dotted(src) && dst[end] == '\0'
    ensures !ok ==> dst[..] == old(dst[..])
  {
    var tmp := Dotted(src);
    if |tmp| >= size {
      return false, tp;
    }
    end := PutString(dst, tp, tmp);
    ok := true;
  }

  /** The bytes, two to a word. The or of the halves is their sum, for they share no bit. */
  method FillWords(src: seq<Byte>) returns (words: array<int>)
    requires |src| == 16
    ensures fresh(words) && words.Length == 8 && forall i | 0 <= i < 8 :: words[i] == WordsOf(src)[i]
  {
    words := new int[8](_ => 0);
    for i := 0 to 16
      invariant forall k | 0 <= k < 8 && 2 * k + 2 <= i :: words[k] == WordAt(src[2 * k], src[2 * k + 1])
      invariant forall k | 0 <= k < 8 && 2 * k + 1 == i :: words[k] == 256 * (src[2 * k] as int)
      invariant forall k | 0 <= k < 8 && 2 * k >= i :: words[k] == 0
    {
      words[i / 2] := words[i / 2] + (if i % 2 == 0 then 256 * (src[i] as int) else src[i] as int);
    }
  }

  /** Every zero run within the first `end` words is shorter than the run at `base`, or as long and not
      before it; with no such run, there is none at all. */
  ghost predicate BestUpTo(w: seq<Word>, base: int, len: int, end: nat) {
    && (base == -1 || (0 <= base && 1 <= len && base + len <= end && ZeroRun(w, base, len)))
    && forall b: nat, l: nat | ZeroRun(w, b, l) && l > 0 && b + l <= end ::
         base != -1 && (l < len || (l == len && base <= b))
  }

  /** A zero run that a nonzero word or an edge bounds on both sides ends the comparison up to there. */
  lemma CloseRun(w: seq<Word>, base: int, len: int, curBase: nat, curLen: nat)
    requires BestUpTo(w, base, len, curBase) && curLen > 0 && ZeroRun(w, curBase, curLen)
    requires curBase == 0 || w[curBase - 1] != 0
    ensures if base == -1 || curLen > len then BestUpTo(w, curBase, curLen, curBase + curLen)
            else BestUpTo(w, base, len, curBase + curLen)
  {
    var base', len' := if base == -1 || curLen > len then curBase else base, if base == -1 || curLen > len then curLen else len;
    forall b: nat, l: nat | ZeroRun(w, b, l) && l > 0 && b + l <= curBase + curLen
      ensures base' != -1 && (l < len' || (l == len' && base' <= b))
    {
    }
  }

  /** The scan for the longest run of zero words. */
  method FindBest(words: array<int>, ghost w: seq<Word>) returns (run: Run)
    requires words.Length == 8 == |w| && forall i | 0 <= i < 8 :: words[i] == w[i]
    ensures IsBest(w, run)
  {
    var bestBase, bestLen, curBase, curLen := -1, 0, -1, 0;
    var i: nat := 0;
    while i < 8
      invariant i <= 8
      invariant curBase == -1 ==> (i == 0 || w[i - 1] != 0) && BestUpTo(w, bestBase, bestLen, i)
      invariant curBase != -1 ==>
                  && 0 <= curBase < i && curLen == i - curBase && ZeroRun(w, curBase, curLen)
                  && (curBase == 0 || w[curBase - 1] != 0) && BestUpTo(w, bestBase, bestLen, curBase)
    {
      if words[i] == 0 {
        if curBase == -1 {
          curBase, curLen := i, 1;
        } else {
          curLen := curLen + 1;
        }
      } else {
        if curBase != -1 {
          CloseRun(w, bestBase, bestLen, curBase, curLen);
          if bestBase == -1 || curLen > bestLen {
            bestBase, bestLen := curBase, curLen;
          }
          curBase := -1;
        }
        NonzeroEnds(w, bestBase, bestLen, i);
      }
      i := i + 1;
    }
    if curBase != -1 {
      CloseRun(w, bestBase, bestLen, curBase, curLen);
      if bestBase == -1 || curLen > bestLen {
        bestBase, bestLen := curBase, curLen;
      }
    }
    run := if bestBase != -1 && bestLen >= 2 then Zeros(bestBase, bestLen) else NoRun;
  }

  lemma NonzeroEnds(w: seq<Word>, base: int, len: int, i: nat)
    requires i < |w| && w[i] != 0 && BestUpTo(w, base, len, i)
    ensures BestUpTo(w, base, len, i + 1)
  {
    forall b: nat, l: nat | ZeroRun(w, b, l) && l > 0 && b + l <= i + 1
      ensures base != -1 && (l < len || (l == len && base <= b))
    {
    }
  }

  // ----- what the formatting loop writes -----

  predicate Inside(run: Run, i: nat) {
    run.Zeros? && run.base <= i < run.base + run.len
  }

  function Piece(words: seq<Word>, run: Run, i: nat): string
    requires i < |words|
  {
    if Inside(run, i) then (if i == run.base then ":" else "")
    else (if i != 0 then ":" else "") + HexText(words[i])
  }

  function Pieces(words: seq<Word>, run: Run, n: nat): string
    requires n <= |words|
  {
    if n == 0 then "" else Pieces(words, run, n - 1) + Piece(words, run, n - 1)
  }

  lemma {:induction false} JoinSnoc(words: seq<Word>, w: Word)
    ensures Join(words + [w]) == if words == [] then HexText(w) else Join(words) + ":" + HexText(w)
  {
    hide HexText;
    if words == [] {
      assert words + [w] == [w];
    } else {
      assert (words + [w])[0] == words[0] && (words + [w])[1..] == words[1..] + [w];
      JoinSnoc(words[1..], w);
      var h, t := HexText(words[0]), HexText(w);
      if |words| == 1 {
        assert words == [words[0]];
      } else {
        assert h + ":" + (Join(words[1..]) + ":" + t) == (h + ":" + Join(words[1..])) + ":" + t;
      }
    }
  }

  /** Pieces before a run, and with no run, are a list of groups. */
  lemma {:induction false} PiecesBefore(words: seq<Word>, run: Run, n: nat)
    requires n <= |words| && (run.Zeros? ==> n <= run.base)
    ensures Pieces(words, run, n) == Join(words[..n])
    decreases n
  {
    hide HexText, Join;
    assert words[..0] == [];
    EmptyJoin();
    if n > 0 {
      PiecesBefore(words, run, n - 1);
      assert words[..n] == words[..n - 1] + [words[n - 1]];
      JoinSnoc(words[..n - 1], words[n - 1]);
      assert Piece(words, run, n - 1) == (if n == 1 then "" else ":") + HexText(words[n - 1]);
      Regroup(Join(words[..n - 1]), "", HexText(words[n - 1]));
    }
  }

  /** Within a run only its first word writes anything. */
  lemma {:induction false} PiecesWithin(words: seq<Word>, run: Run, n: nat)
    requires run.Zeros? && run.base < n <= run.base + run.len <= |words|
    ensures Pieces(words, run, n) == Join(words[..run.base]) + ":"
    decreases n
  {
    hide *;
    NextPiece(words, run, n - 1);
    PieceInside(words, run, n - 1);
    if n == run.base + 1 {
      PiecesBefore(words, run, run.base);
    } else {
      PiecesWithin(words, run, n - 1);
      assert Pieces(words, run, n - 1) + "" == Pieces(words, run, n - 1);
    }
  }

  lemma PieceInside(words: seq<Word>, run: Run, i: nat)
    requires run.Zeros? && run.base <= i < run.base + run.len && i < |words|
    ensures Piece(words, run, i) == if i == run.base then ":" else ""
  {
  }

  /** Behind a run the groups follow the double colon. */
  lemma {:induction false} PiecesAfter(words: seq<Word>, run: Run, n: nat)
    requires run.Zeros? && 0 < run.len && run.base + run.len < n <= |words|
    ensures Pieces(words, run, n) == Join(words[..run.base]) + "::" + Join(words[run.base + run.len..n])
    decreases n
  {
    hide HexText, Join;
    var k := run.base + run.len;
    var t := HexText(words[n - 1]);
    var l := Join(words[..run.base]);
    assert Piece(words, run, n - 1) == ":" + t;
    assert words[k..n] == words[k..n - 1] + [words[n - 1]];
    JoinSnoc(words[k..n - 1], words[n - 1]);
    if n == k + 1 {
      PiecesWithin(words, run, k);
      Regroup(l + ":", "", t);
      assert words[k..k] == [] && l + ":" + ":" == l + "::";
    } else {
      PiecesAfter(words, run, n - 1);
      Regroup(l + "::", Join(words[k..n - 1]), t);
    }
  }

  lemma Regroup(l: string, m: string, t: string)
    ensures l + m + (":" + t) == l + (m + ":" + t)
    ensures l + (":" + t) == l + ":" + t
  {
  }

  /** What the loop and the colon behind a trailing run write is the text. */
  lemma PiecesAreText(src: seq<Byte>, run: Run)
    requires |src| == 16 && (run.Zeros? ==> 0 < run.len && run.base + run.len <= 8)
    requires !Encapsulated(WordsOf(src), run)
    ensures Text(src, run) == Pieces(WordsOf(src), run, 8) + (if run.Zeros? && run.base + run.len == 8 then ":" else "")
  {
    hide Join, Pieces;
    var words := WordsOf(src);
    assert words[..8] == words;
    match run
    case NoRun =>
      PiecesBefore(words, run, 8);
      assert Join(words) + "" == Join(words);
    case Zeros(base, len) =>
      var l := Join(words[..base]);
      if base + len == 8 {
        PiecesWithin(words, run, 8);
        assert words[8..] == [];
        EmptyJoin();
        assert l + ":" + ":" == l + "::" + "";
      } else {
        PiecesAfter(words, run, 8);
        assert words[base + len..8] == words[base + len..];
        assert Pieces(words, run, 8) + "" == Pieces(words, run, 8);
      }
  }

  lemma EmptyJoin()
    ensures Join([]) == ""
  {
  }

  /** With an encapsulated address, the loop stops after six words. */
  lemma PiecesAreEncapsulated(src: seq<Byte>, run: Run)
    requires |src| == 16 && Encapsulated(WordsOf(src), run)
    ensures Text(src, run) == Pieces(WordsOf(src), run, 6) + ":" + Dotted(src[12..])
  {
    hide Pieces, Dotted;
    var words := WordsOf(src);
    var d := Dotted(src[12..]);
    assert words[..0] == [];
    EmptyJoin();
    if run.len == 6 {
      PiecesWithin(words, run, 6);
      assert "" + ":" + ":" + d == "" + "::" + ("" + d);
    } else {
      PiecesAfter(words, run, 6);
      assert words[5..6] == [words[5]];
      Ffff();
      assert "" + "::" + "ffff" + ":" + d == "" + "::" + ("ffff:" + d);
    }
  }

  // ----- the printer -----

  lemma {:induction false} DottedLength(q: seq<Byte>)
    requires q != []
    ensures |Dotted(q)| <= 4 * |q| - 1
  {
    DecRoundTrip(q[0]);
    if |q| > 1 { DottedLength(q[1..]); }
  }

  /** What the loop writes for one word that is not the encapsulated address. */
  method WritePiece(tmp: array<char>, tp: nat, words: array<int>, ghost w: seq<Word>, run: Run, i: nat) returns (end: nat)
    requires i < words.Length == |w| && words[i] == w[i]
    requires tp + 5 < tmp.Length && words as object != tmp as object
    modifies tmp
    ensures end <= tp + (if i == 0 then 4 else 5) && tmp[..end] == old(tmp[..tp]) + Piece(w, run, i)
  {
    hide Numeral, Inside, HexText;
    HexRoundTrip(w[i]);
    PieceIs(w, run, i);
    end := tp;
    if Inside(run, i) {
      if i == run.base {
        end := Put(tmp, end, ':');
      }
      assert tmp[..tp] + "" == tmp[..tp];
      return;
    }
    if i != 0 {
      end := Put(tmp, end, ':');
    }
    end := PutString(tmp, end, HexText(words[i]));
    PieceParts(old(tmp[..tp]), i, HexText(words[i]));
  }

  lemma PieceIs(words: seq<Word>, run: Run, i: nat)
    requires i < |words|
    ensures Piece(words, run, i) == if Inside(run, i) then (if i == run.base then ":" else "")
                                    else (if i != 0 then ":" else "") + HexText(words[i])
    ensures Inside(run, i) ==> run.Zeros?
  {
    hide HexText;
  }

  lemma PieceParts(before: string, i: nat, h: string)
    ensures before + (if i != 0 then ":" else "") + h == before + ((if i != 0 then ":" else "") + h)
    ensures before + "" == before && before + [':'] == before + ":"
  {
  }

  /** The formatting loop. At most five characters are written for a word, and four for the first. */
  method Format(src: seq<Byte>, words: array<int>, run: Run, tmp: array<char>) returns (tp: nat)
    requires |src| == 16 && words.Length == 8 && forall i | 0 <= i < 8 :: words[i] == WordsOf(src)[i]
    requires run.Zeros? ==> 0 < run.len && run.base + run.len <= 8
    requires tmp.Length == TMP_SIZE && words as object != tmp as object
    modifies tmp
    ensures tp < TMP_SIZE && tmp[..tp] == Text(src, run)
  {
    hide Text, Dotted, HexText, Pieces, Piece, WordsOf;
    ghost var w := WordsOf(src);
    tp := 0;
    var i: nat := 0;
    NoPieces(w, run);
    while i < 8
      invariant i <= 8 && tp <= 5 * i && (i > 0 ==> tp <= 5 * i - 1)
      invariant tmp[..tp] == Pieces(w, run, i)
      invariant Encapsulated(w, run) ==> i <= 6
      invariant forall k | 0 <= k < 8 :: words[k] == w[k]
      decreases 8 - i
    {
      if i == 6 && run.Zeros? && run.base == 0 && (run.len == 6 || (run.len == 5 && words[5] == 0xffff)) {
        tp := Put(tmp, tp, ':');
        DottedLength(src[12..]);
        var ok: bool;
        ok, tp := InetNtop4(src[12..], tmp, tp, TMP_SIZE - tp);
        PiecesAreEncapsulated(src, run);
        return;
      }
      ghost var before := tmp[..tp];
      tp := WritePiece(tmp, tp, words, w, run, i);
      NextPiece(w, run, i);
      i := i + 1;
    }
    PiecesAreText(src, run);
    ghost var before := tmp[..tp];
    if run.Zeros? && run.base + run.len == 8 {
      tp := Put(tmp, tp, ':');
    } else {
      assert before + "" == before;
    }
  }

  lemma NoPieces(w: seq<Word>, run: Run)
    ensures Pieces(w, run, 0) == ""
  {
  }

  lemma NextPiece(w: seq<Word>, run: Run, i: nat)
    requires i < |w|
    ensures Pieces(w, run, i + 1) == Pieces(w, run, i) + Piece(w, run, i)
  {
  }

  /** `_inet_ntop6`: the text with the best zero run compressed, if it and its NUL fit. */
  method InetNtop6(src: seq<Byte>, dst: array<char>) returns (ok: bool, ghost run: Run)
    requires |src| == 16
    modifies dst
    ensures IsBest(WordsOf(src), run)
    ensures ok <==> |Text(src, run)| + 1 <= dst.Length
    ensures ok ==> dst[..|Text(src, run)|] == Text(src, run) && dst[|Text(src, run)|] == '\0'
    ensures !ok ==> dst[..] == old(dst[..])
  {
    hide Text, Dotted;
    var words := FillWords(src);
    var best := FindBest(words, WordsOf(src));
    run := best;
    var tmp := new char[TMP_SIZE];
    var tp := Format(src, words, best, tmp);
    tmp[tp] := '\0';
    tp := tp + 1;
    if tp > dst.Length {
      return false, run;
    }
    forall i | 0 <= i < tp { dst[i] := tmp[i]; }
    ok := true;
    assert dst[..tp - 1] == tmp[..tp - 1];
  }

  /** Whatever the printer writes reads back as the address it was given. */
  lemma PrintedReadsBack(src: seq<Byte>, run: Run)
    requires |src| == 16 && IsBest(WordsOf(src), run)
    ensures Parse(Text(src, run)) == Some(src)
  {
    RoundTrip(src, run);
  }
}
