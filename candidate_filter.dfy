/**
 The candidate filter of the bracket-reference suggestion overlay: from the text
 typed between the brackets and the pool of candidate file names it derives the
 (at most five) suggestions to show, in pool order, with their file extension
 removed for display.
 */
module CandidateFilter {

  /** At most this many suggestions are shown. */
  const MaxSuggestions: nat := 5

  /** Lower-cases one character (letters A-Z; every other character is kept). */
  function LowerChar(c: char): char
  {
    if 'A' <= c <= 'Z' then (c as int - 'A' as int + 'a' as int) as char else c
  }

  /** `s.toLowerCase()`, character by character. */
  function ToLower(s: string): (r: string)
    ensures |r| == |s|
    ensures forall i :: 0 <= i < |s| ==> r[i] == LowerChar(s[i])
  {
    if s == [] then [] else [LowerChar(s[0])] + ToLower(s[1..])
  }

  /** Lower-casing twice is lower-casing once. */
  lemma ToLowerIdempotent(s: string)
    ensures ToLower(ToLower(s)) == ToLower(s)
  {
  }

  /** `q` occurs in `s` starting at position `i`. */
  predicate OccursAt(q: string, s: string, i: int)
  {
    0 <= i && i + |q| <= |s| && s[i..i + |q|] == q
  }

  /** Dropping the first character of `s` shifts every occurrence one place left. */
  lemma OccursAtTail(q: string, s: string, i: int)
    requires s != [] && 0 <= i
    ensures OccursAt(q, s[1..], i) <==> OccursAt(q, s, i + 1)
  {
  }

  /** `s.includes(q)`: whether `q` occurs somewhere in `s`. */
  function Includes(s: string, q: string): (b: bool)
    ensures b <==> exists i :: OccursAt(q, s, i)
    decreases |s|
  {
    if q <= s then
      assert OccursAt(q, s, 0);
      true
    else if s == [] then
      false
    else
      var b := Includes(s[1..], q);
      assert !OccursAt(q, s, 0);
      assert b ==> exists i :: OccursAt(q, s, i) by {
        if b {
          var i :| OccursAt(q, s[1..], i);
          OccursAtTail(q, s, i);
        }
      }
      assert (exists i :: OccursAt(q, s, i)) ==> b by {
        if i :| OccursAt(q, s, i) {
          assert i != 0;
          OccursAtTail(q, s, i - 1);
        }
      }
      b
  }

  /** The predicate given to `filter`: the lower-cased candidate contains the lower-cased query. */
  function IsMatch(lowerQuery: string, candidate: string): (b: bool)
    ensures b ==> exists i :: OccursAt(lowerQuery, ToLower(candidate), i)
    ensures (exists i :: OccursAt(lowerQuery, ToLower(candidate), i)) ==> b
    // an empty text occurs in every name, as `includes("")` is true
    ensures lowerQuery == [] ==> b
  {
    assert lowerQuery == [] ==> OccursAt(lowerQuery, ToLower(candidate), 0);
    Includes(ToLower(candidate), lowerQuery)
  }

  /** `candidates.filter(...)`: the matching candidates, in pool order. */
  function KeepMatching(lowerQuery: string, candidates: seq<string>): (r: seq<string>)
    ensures |r| <= |candidates|
    ensures forall x :: x in r ==> x in candidates && IsMatch(lowerQuery, x)
  {
    if candidates == [] then []
    else
      var init, last := candidates[..|candidates| - 1], candidates[|candidates| - 1];
      KeepMatching(lowerQuery, init) + if IsMatch(lowerQuery, last) then [last] else []
  }

  /** `.map(removeFileExtension)`, with the extension remover passed in. */
  function StripAll(strip: string -> string, names: seq<string>): (r: seq<string>)
    ensures |r| == |names|
    ensures forall i :: 0 <= i < |names| ==> r[i] == strip(names[i])
  {
    seq(|names|, i requires 0 <= i < |names| => strip(names[i]))
  }

  /** `.slice(0, n)`: the first `n` elements, or all of them when there are fewer. */
  function Take<T>(s: seq<T>, n: nat): (r: seq<T>)
    ensures |r| == if |s| <= n then |s| else n
    ensures r <= s
  {
    if |s| <= n then s else s[..n]
  }

  /**
   The suggestions shown for the bracket text `query` over the pool `candidates`;
   `strip` is the file-extension remover.
   */
  function Filtered(query: string, candidates: seq<string>, strip: string -> string): (r: seq<string>)
    ensures query == [] ==> r == []
    ensures |r| <= MaxSuggestions && |r| <= |candidates|
  {
    if query == [] then []
    else Take(StripAll(strip, KeepMatching(ToLower(query), candidates)), MaxSuggestions)
  }

  /**
   Reference definition of "which candidates match": the positions of the
   matching candidates in the pool, in increasing order.
   */
  function MatchIndices(lowerQuery: string, candidates: seq<string>): (idx: seq<nat>)
    ensures forall k :: 0 <= k < |idx| ==> idx[k] < |candidates|
    ensures forall k, l :: 0 <= k < l < |idx| ==> idx[k] < idx[l]
    ensures forall j :: 0 <= j < |candidates| ==> (j in idx <==> IsMatch(lowerQuery, candidates[j]))
  {
    if candidates == [] then []
    else
      var n := |candidates| - 1;
      var init := candidates[..n];
      var prev := MatchIndices(lowerQuery, init);
      assert forall j :: 0 <= j < n ==> init[j] == candidates[j];
      prev + if IsMatch(lowerQuery, candidates[n]) then [n] else []
  }

  /** The matching positions of a pool with one more candidate at its end. */
  lemma MatchIndicesSnoc(lowerQuery: string, xs: seq<string>, c: string)
    ensures MatchIndices(lowerQuery, xs + [c])
         == MatchIndices(lowerQuery, xs) + if IsMatch(lowerQuery, c) then [|xs|] else []
  {
    var ys := xs + [c];
    assert ys[..|ys| - 1] == xs && ys[|ys| - 1] == c;
  }

  /** The filter keeps exactly the candidates at the matching positions, in order. */
  lemma {:induction false} KeepMatchingAtIndices(lowerQuery: string, candidates: seq<string>)
    ensures var m, idx := KeepMatching(lowerQuery, candidates), MatchIndices(lowerQuery, candidates);
      |m| == |idx| && forall k :: 0 <= k < |m| ==> m[k] == candidates[idx[k]]
  {
    if candidates != [] {
      var n := |candidates| - 1;
      var init, last := candidates[..n], candidates[n];
      assert candidates == init + [last];
      KeepMatchingAtIndices(lowerQuery, init);
      KeepMatchingSnoc(lowerQuery, init, last);
      MatchIndicesSnoc(lowerQuery, init, last);
      var m0, idx0 := KeepMatching(lowerQuery, init), MatchIndices(lowerQuery, init);
      var m, idx := KeepMatching(lowerQuery, candidates), MatchIndices(lowerQuery, candidates);
      forall k | 0 <= k < |m| ensures m[k] == candidates[idx[k]] {
        if k < |m0| {
          assert m[k] == m0[k] && idx[k] == idx0[k];
        }
      }
    }
  }

  /**
   For a non-empty query the suggestions are exactly the first min(5, #matches)
   matching candidates, in pool order, each with its extension removed.
   */
  lemma FilteredIsFirstMatches(query: string, candidates: seq<string>, strip: string -> string)
    requires query != []
    ensures var r, idx := Filtered(query, candidates, strip), MatchIndices(ToLower(query), candidates);
      && |r| == (if |idx| <= MaxSuggestions then |idx| else MaxSuggestions)
      && forall k :: 0 <= k < |r| ==> r[k] == strip(candidates[idx[k]])
  {
    KeepMatchingAtIndices(ToLower(query), candidates);
  }

  /** Every suggestion is the stripped form of a candidate that matches the query case-insensitively. */
  lemma FilteredSound(query: string, candidates: seq<string>, strip: string -> string, k: nat)
    requires k < |Filtered(query, candidates, strip)|
    ensures exists j :: (0 <= j < |candidates| && IsMatch(ToLower(query), candidates[j])
                         && Filtered(query, candidates, strip)[k] == strip(candidates[j]))
  {
    FilteredIsFirstMatches(query, candidates, strip);
    var idx := MatchIndices(ToLower(query), candidates);
    assert idx[k] in idx;
  }

  /** The suggestions never reorder the pool: later suggestions come from later candidates. */
  lemma FilteredKeepsPoolOrder(query: string, candidates: seq<string>, strip: string -> string, k: nat, l: nat)
    requires query != []
    requires k < l < |Filtered(query, candidates, strip)|
    ensures exists j1, j2 :: (0 <= j1 < j2 < |candidates|
                              && IsMatch(ToLower(query), candidates[j1]) && IsMatch(ToLower(query), candidates[j2])
                              && Filtered(query, candidates, strip)[k] == strip(candidates[j1])
                              && Filtered(query, candidates, strip)[l] == strip(candidates[j2]))
  {
    FilteredIsFirstMatches(query, candidates, strip);
    var idx := MatchIndices(ToLower(query), candidates);
    assert idx[k] in idx && idx[l] in idx;
  }

  /**
   A matching candidate is either shown, or five earlier matching candidates
   are shown instead of it.
   */
  lemma FilteredSkipsOnlyAfterFive(query: string, candidates: seq<string>, strip: string -> string, j: nat)
    requires query != []
    requires j < |candidates| && IsMatch(ToLower(query), candidates[j])
    ensures var r, idx := Filtered(query, candidates, strip), MatchIndices(ToLower(query), candidates);
      && |r| <= |idx|
      && (|| (exists k :: 0 <= k < |r| && idx[k] == j && r[k] == strip(candidates[j]))
          || (|r| == MaxSuggestions && forall k :: 0 <= k < |r| ==> idx[k] < j))
  {
    FilteredIsFirstMatches(query, candidates, strip);
    var idx := MatchIndices(ToLower(query), candidates);
    var r := Filtered(query, candidates, strip);
    var p :| 0 <= p < |idx| && idx[p] == j;
    if p < |r| {
      assert r[p] == strip(candidates[j]);
    }
  }

  /** Filtering a pool with one more candidate at its end. */
  lemma KeepMatchingSnoc(lowerQuery: string, xs: seq<string>, c: string)
    ensures KeepMatching(lowerQuery, xs + [c])
         == KeepMatching(lowerQuery, xs) + if IsMatch(lowerQuery, c) then [c] else []
  {
    var ys := xs + [c];
    assert ys[..|ys| - 1] == xs && ys[|ys| - 1] == c;
  }

  /** Filtering distributes over concatenation of pools. */
  lemma {:induction false} KeepMatchingAppend(lowerQuery: string, xs: seq<string>, ys: seq<string>)
    ensures KeepMatching(lowerQuery, xs + ys) == KeepMatching(lowerQuery, xs) + KeepMatching(lowerQuery, ys)
    decreases |ys|
  {
    if ys == [] {
      assert xs + ys == xs;
    } else {
      var n := |ys| - 1;
      var init, last := ys[..n], ys[n];
      assert ys == init + [last];
      assert xs + ys == (xs + init) + [last];
      var kept := if IsMatch(lowerQuery, last) then [last] else [];
      calc {
        KeepMatching(lowerQuery, xs + ys);
        { KeepMatchingSnoc(lowerQuery, xs + init, last); }
        KeepMatching(lowerQuery, xs + init) + kept;
        { KeepMatchingAppend(lowerQuery, xs, init); }
        KeepMatching(lowerQuery, xs) + KeepMatching(lowerQuery, init) + kept;
        { KeepMatchingSnoc(lowerQuery, init, last); }
        KeepMatching(lowerQuery, xs) + KeepMatching(lowerQuery, ys);
      }
    }
  }

  /**
   Adding candidates to the end of the pool never displaces a suggestion already
   shown: the old suggestions are a prefix of the new ones, and once five are
   shown nothing changes.
   */
  lemma FilteredStableUnderAppend(query: string, xs: seq<string>, ys: seq<string>, strip: string -> string)
    ensures Filtered(query, xs, strip) <= Filtered(query, xs + ys, strip)
    ensures |Filtered(query, xs, strip)| == MaxSuggestions ==> Filtered(query, xs + ys, strip) == Filtered(query, xs, strip)
  {
    if query != [] {
      var lq := ToLower(query);
      KeepMatchingAppend(lq, xs, ys);
      var a, b := KeepMatching(lq, xs), KeepMatching(lq, ys);
      var sa, sab := StripAll(strip, a), StripAll(strip, a + b);
      assert sa <= sab;
    }
  }

  /** Matching ignores case: the query and its lower-cased form give the same suggestions. */
  lemma FilteredIgnoresQueryCase(query: string, candidates: seq<string>, strip: string -> string)
    ensures Filtered(query, candidates, strip) == Filtered(ToLower(query), candidates, strip)
  {
    ToLowerIdempotent(query);
  }
}
