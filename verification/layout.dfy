/**
 The row-major text layout of a matrix, at the level of tokens. `saveMatrix`
 writes every element followed by a tab and ends each row of `n` elements with
 a newline; `printMatrix` writes the same layout to the console followed by one
 more newline; `readMatrix` reads `n * n` integers, whitespace between them
 ignored, and stores the `i`-th one at index `i`.
 */
module Layout {
  import Arith

  /** One token of the text format: an integer, a tab, or a newline. */
  datatype Token = Num(value: int) | Tab | Newline

  datatype Option<T> = None | Some(value: T)

  /** The integers of a token stream, in order. */
  function Numbers(tokens: seq<Token>): seq<int> {
    if |tokens| == 0 then []
    else
      var last := tokens[|tokens| - 1];
      Numbers(tokens[..|tokens| - 1]) + (if last.Num? then [last.value] else [])
  }

  /** The number of newlines in a token stream. */
  function NewlineCount(tokens: seq<Token>): nat {
    if |tokens| == 0 then 0
    else NewlineCount(tokens[..|tokens| - 1]) + (if tokens[|tokens| - 1] == Newline then 1 else 0)
  }

  lemma {:induction false} NumbersConcat(s: seq<Token>, t: seq<Token>)
    ensures Numbers(s + t) == Numbers(s) + Numbers(t)
    decreases |t|
  {
    if |t| == 0 {
      assert s + t == s;
    } else {
      var t' := t[..|t| - 1];
      assert (s + t)[..|s + t| - 1] == s + t';
      NumbersConcat(s, t');
    }
  }

  lemma {:induction false} NewlineCountConcat(s: seq<Token>, t: seq<Token>)
    ensures NewlineCount(s + t) == NewlineCount(s) + NewlineCount(t)
    decreases |t|
  {
    if |t| == 0 {
      assert s + t == s;
    } else {
      var t' := t[..|t| - 1];
      assert (s + t)[..|s + t| - 1] == s + t';
      NewlineCountConcat(s, t');
    }
  }

  /** What `saveMatrix` writes for element `i`: the number and a tab, then a
      newline when `i` is the last element of its row. */
  function ElementTokens(m: seq<int>, n: nat, i: nat): seq<Token>
    requires 0 < n && i < |m|
  {
    [Num(m[i]), Tab] + (if i % n == n - 1 then [Newline] else [])
  }

  /** Element `i` contributes its own value, and a newline exactly when it ends a row. */
  lemma ElementTokensContents(m: seq<int>, n: nat, i: nat)
    requires 0 < n && i < |m|
    ensures Numbers(ElementTokens(m, n, i)) == [m[i]]
    ensures NewlineCount(ElementTokens(m, n, i)) == (if i % n == n - 1 then 1 else 0)
    ensures |ElementTokens(m, n, i)| == 2 + (if i % n == n - 1 then 1 else 0)
  {
    var single := [Num(m[i])];
    var pair := [Num(m[i]), Tab];
    assert single[..0] == [];
    assert Numbers(single) == [m[i]] && NewlineCount(single) == 0;
    assert pair[..1] == single;
    assert Numbers(pair) == [m[i]] && NewlineCount(pair) == 0;
    if i % n == n - 1 {
      var triple := pair + [Newline];
      assert ElementTokens(m, n, i) == triple;
      assert triple[..2] == pair;
      assert Numbers(triple) == [m[i]] && NewlineCount(triple) == 1;
    } else {
      assert ElementTokens(m, n, i) == pair;
    }
  }

  /** What `saveMatrix` has written after its first `k` loop iterations. */
  function SavePrefix(m: seq<int>, n: nat, k: nat): seq<Token>
    requires 0 < n && k <= |m|
  {
    if k == 0 then [] else SavePrefix(m, n, k - 1) + ElementTokens(m, n, k - 1)
  }

  /** After `k` iterations the output holds the first `k` elements in order,
      `k / n` newlines (one per completed row) and `2 * k + k / n` tokens. */
  lemma {:induction false} SavePrefixContents(m: seq<int>, n: nat, k: nat)
    requires 0 < n && k <= |m|
    ensures Numbers(SavePrefix(m, n, k)) == m[..k]
    ensures NewlineCount(SavePrefix(m, n, k)) == k / n
    ensures |SavePrefix(m, n, k)| == 2 * k + k / n
  {
    if k > 0 {
      var prev, elem := SavePrefix(m, n, k - 1), ElementTokens(m, n, k - 1);
      SavePrefixContents(m, n, k - 1);
      NumbersConcat(prev, elem);
      NewlineCountConcat(prev, elem);
      ElementTokensContents(m, n, k - 1);
      assert m[..k] == m[..k - 1] + [m[k - 1]];
      Arith.DivModStep(k - 1, n);
    }
  }

  /** The whole of what `saveMatrix` writes: the matrix's `n * n` numbers in index
      order and exactly `n` newlines, one per row. */
  function SaveMatrix(m: seq<int>, n: nat): (out: seq<Token>)
    requires 0 < n && |m| == n * n
    ensures Numbers(out) == m
    ensures NewlineCount(out) == n
    ensures |out| == 2 * n * n + n
  {
    SavePrefixContents(m, n, n * n);
    assert m[..n * n] == m;
    assert n * n / n == n by {
      Arith.DivModUnique(n * n, n, n, 0);
    }
    SavePrefix(m, n, n * n)
  }

  /** What is written after `k` iterations splits around any element `i < k`: the
      first `i` elements, the tokens of element `i`, then the rest. */
  lemma {:induction false} SavePrefixSplit(m: seq<int>, n: nat, k: nat, i: nat) returns (rest: seq<Token>)
    requires 0 < n && i < k <= |m|
    ensures SavePrefix(m, n, k) == SavePrefix(m, n, i) + ElementTokens(m, n, i) + rest
    decreases k
  {
    if k == i + 1 {
      rest := [];
    } else {
      var rest' := SavePrefixSplit(m, n, k - 1, i);
      rest := rest' + ElementTokens(m, n, k - 1);
    }
  }

  /** Within what is written after `k` iterations, element `i < k` starts at
      position `|SavePrefix(m, n, i)|` with its number and a tab; the next token is
      a newline if `i` ends a row and otherwise the number of element `i + 1`. */
  lemma SavePrefixPositions(m: seq<int>, n: nat, k: nat, i: nat)
    requires 0 < n && i < k <= |m|
    requires i % n == n - 1 || i + 1 < k
    ensures |SavePrefix(m, n, i)| + 2 < |SavePrefix(m, n, k)|
    ensures SavePrefix(m, n, k)[|SavePrefix(m, n, i)|] == Num(m[i])
    ensures SavePrefix(m, n, k)[|SavePrefix(m, n, i)| + 1] == Tab
    ensures SavePrefix(m, n, k)[|SavePrefix(m, n, i)| + 2]
         == if i % n == n - 1 then Newline else Num(m[i + 1])
  {
    var prefix, elem := SavePrefix(m, n, i), ElementTokens(m, n, i);
    var rest := SavePrefixSplit(m, n, k, i);
    if i % n != n - 1 {
      var rest' := SavePrefixSplit(m, n, k, i + 1);
      assert SavePrefix(m, n, i + 1) == prefix + elem;
      assert SavePrefix(m, n, k) == prefix + elem + ElementTokens(m, n, i + 1) + rest';
    }
  }

  /** In the saved matrix, element `i` is written at position `p = 2 * i + i / n`
      as a number followed by a tab, and the token after the tab is a newline
      exactly when `i` ends a row (`i % n == n - 1`), otherwise the next element. */
  lemma SaveMatrixPositions(m: seq<int>, n: nat, i: nat, p: nat)
    requires 0 < n && |m| == n * n
    requires i < n * n && p == 2 * i + i / n
    ensures p + 2 < |SaveMatrix(m, n)|
    ensures SaveMatrix(m, n)[p] == Num(m[i])
    ensures SaveMatrix(m, n)[p + 1] == Tab
    ensures SaveMatrix(m, n)[p + 2] == Newline <==> i % n == n - 1
  {
    if i % n != n - 1 && i + 1 == n * n {
      Arith.DivModUnique(i, n, n - 1, n - 1);
    }
    SavePrefixContents(m, n, i);
    SavePrefixPositions(m, n, n * n, i);
  }

  /** What `printMatrix` writes to the console: the saved layout followed by one
      more newline, so the numbers are the matrix's and there are `n + 1` newlines. */
  function PrintMatrix(m: seq<int>, n: nat): (out: seq<Token>)
    requires 0 < n && |m| == n * n
    ensures Numbers(out) == m
    ensures NewlineCount(out) == n + 1
    ensures |out| == 2 * n * n + n + 1
    ensures out[..|out| - 1] == SaveMatrix(m, n)
    ensures out[|out| - 1] == Newline
  {
    var saved := SaveMatrix(m, n);
    NumbersConcat(saved, [Newline]);
    NewlineCountConcat(saved, [Newline]);
    assert (saved + [Newline])[..|saved|] == saved;
    saved + [Newline]
  }

  /** On the console, element `i` sits at position `p = 2 * i + i / n` followed by
      a tab, and the token after the tab is a newline exactly when `i` ends a row. */
  lemma PrintMatrixPositions(m: seq<int>, n: nat, i: nat, p: nat)
    requires 0 < n && |m| == n * n
    requires i < n * n && p == 2 * i + i / n
    ensures p + 2 < |PrintMatrix(m, n)| - 1
    ensures PrintMatrix(m, n)[p] == Num(m[i])
    ensures PrintMatrix(m, n)[p + 1] == Tab
    ensures PrintMatrix(m, n)[p + 2] == Newline <==> i % n == n - 1
  {
    var out, saved := PrintMatrix(m, n), SaveMatrix(m, n);
    SaveMatrixPositions(m, n, i, p);
    assert out[p] == saved[p] && out[p + 1] == saved[p + 1] && out[p + 2] == saved[p + 2];
  }

  /** `readMatrix`: reads `n * n` integers, skipping the whitespace between them,
      and stores the `i`-th integer at index `i`; integers after the first `n * n`
      are not read. A stream with fewer than `n * n` integers yields `None`. */
  method ReadMatrix(tokens: seq<Token>, n: nat) returns (r: Option<seq<int>>)
    requires 0 < n
    ensures r.Some? <==> |Numbers(tokens)| >= n * n
    ensures r.Some? ==> r.value == Numbers(tokens)[..n * n]
  {
    var matrix: seq<int> := [];
    var pos := 0;
    var i := 0;
    while i < n * n
      invariant i <= n * n
      invariant pos <= |tokens|
      invariant |matrix| == i
      invariant matrix == Numbers(tokens[..pos])
    {
      while pos < |tokens| && !tokens[pos].Num?
        invariant pos <= |tokens|
        invariant matrix == Numbers(tokens[..pos])
      {
        assert tokens[..pos + 1][..pos] == tokens[..pos];
        pos := pos + 1;
      }
      if pos == |tokens| {
        assert tokens[..pos] == tokens;
        return None;
      }
      assert tokens[..pos + 1][..pos] == tokens[..pos];
      matrix := matrix + [tokens[pos].value];
      pos := pos + 1;
      i := i + 1;
    }
    NumbersConcat(tokens[..pos], tokens[pos..]);
    assert tokens[..pos] + tokens[pos..] == tokens;
    r := Some(matrix);
  }

  /** Reading back what `saveMatrix` wrote gives the original matrix. */
  method SaveThenRead(m: seq<int>, n: nat) returns (r: Option<seq<int>>)
    requires 0 < n && |m| == n * n
    ensures r == Some(m)
  {
    r := ReadMatrix(SaveMatrix(m, n), n);
    assert Numbers(SaveMatrix(m, n))[..n * n] == m;
  }
}
