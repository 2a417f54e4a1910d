/**
 * The save document as plain text: prefix + blob + suffix.
 *
 * The editor finds the blob with a greedy, dot-matches-newline search for
 * `({.*})`: the match starts at the first `{` of the text and runs to the last
 * `}` after it. On save the blob's text is replaced by the new encoding with
 * `str.replace`, which is modelled here as it is defined (every non-overlapping
 * occurrence, left to right) and then shown to touch only the located span.
 */
module SaveText {
  import opened Wrappers

  /** The half-open span [start, end) of the located blob. */
  datatype Span = Span(start: nat, end: nat)

  /** Index of the first occurrence of `c` in `s`. */
  function FirstIndex(s: string, c: char): (r: Option<nat>)
    ensures r.None? <==> c !in s
    ensures r.Some? ==> r.value < |s| && s[r.value] == c
    ensures r.Some? ==> forall k | 0 <= k < r.value :: s[k] != c
  {
    if s == [] then None
    else if s[0] == c then Some(0)
    else
      match FirstIndex(s[1..], c)
      case None => None
      case Some(i) => Some(i + 1)
  }

  /** Index of the last occurrence of `c` in `s`. */
  function LastIndex(s: string, c: char): (r: Option<nat>)
    ensures r.None? <==> c !in s
    ensures r.Some? ==> r.value < |s| && s[r.value] == c
    ensures r.Some? ==> forall k | r.value < k < |s| :: s[k] != c
  {
    if s == [] then None
    else if s[|s| - 1] == c then Some(|s| - 1)
    else
      var r := LastIndex(s[..|s| - 1], c);
      assert s == s[..|s| - 1] + [s[|s| - 1]];
      r
  }

  /**
   * `s[start..end]` is the text the greedy search matches: it opens with the
   * first `{` of `s`, closes with the last `}` of `s`, and the `}` comes after
   * the `{`.
   */
  ghost predicate IsBlobSpan(s: string, sp: Span)
  {
    && sp.start + 2 <= sp.end <= |s|
    && s[sp.start] == '{' && s[sp.end - 1] == '}'
    && (forall k | 0 <= k < sp.start :: s[k] != '{')
    && (forall k | sp.end <= k < |s| :: s[k] != '}')
  }

  /** Some `{` occurs before some `}`. */
  ghost predicate HasBracePair(s: string)
  {
    exists i, j | 0 <= i < j < |s| :: s[i] == '{' && s[j] == '}'
  }

  /** The span of the match of `({.*})` in `s`, or None when the search fails. */
  function Locate(s: string): (r: Option<Span>)
    ensures r.Some? ==> IsBlobSpan(s, r.value)
  {
    match FirstIndex(s, '{')
    case None => None
    case Some(i) =>
      match LastIndex(s, '}')
      case None => None
      case Some(j) => if i < j then Some(Span(i, j + 1)) else None
  }

  /** The text of the match's group 1, the blob handed to the decoder. */
  function Blob(s: string): (r: Option<string>)
    ensures r.Some? <==> Locate(s).Some?
    ensures r.Some? ==> |r.value| >= 2 && r.value[0] == '{' && r.value[|r.value| - 1] == '}'
  {
    match Locate(s)
    case None => None
    case Some(sp) => Some(s[sp.start..sp.end])
  }

  /** The search succeeds exactly when some `{` occurs before some `}`. */
  lemma LocateFindsBracePair(s: string)
    ensures Locate(s).Some? <==> HasBracePair(s)
  {
    if HasBracePair(s) {
      var i, j :| 0 <= i < j < |s| && s[i] == '{' && s[j] == '}';
      assert '{' in s by { assert s[i] == '{'; }
      assert '}' in s by { assert s[j] == '}'; }
      var f := FirstIndex(s, '{').value;
      var l := LastIndex(s, '}').value;
    }
  }

  /**
   * The blob span is unique: any span with the properties of IsBlobSpan is the
   * one Locate returns.
   */
  lemma LocateIsBlobSpan(s: string, sp: Span)
    requires IsBlobSpan(s, sp)
    ensures Locate(s) == Some(sp)
  {
    assert '{' in s by { assert s[sp.start] == '{'; }
    assert '}' in s by { assert s[sp.end - 1] == '}'; }
    var f := FirstIndex(s, '{').value;
    var l := LastIndex(s, '}').value;
  }

  /**
   * Python's `s.replace(pat, rep)`: every non-overlapping occurrence of `pat`,
   * scanning left to right, is replaced by `rep`; an empty `pat` inserts `rep`
   * before every character and at the end.
   */
  function Replace(s: string, pat: string, rep: string): string
    decreases |s|
  {
    if pat == [] then
      if s == [] then rep else rep + [s[0]] + Replace(s[1..], pat, rep)
    else if |s| < |pat| then s
    else if StartsWith(s, pat) then rep + Replace(s[|pat|..], pat, rep)
    else [s[0]] + Replace(s[1..], pat, rep)
  }

  /** `pat` occurs in `s` at index 0, compared character by character. */
  predicate StartsWith(s: string, pat: string)
  {
    pat == [] || (s != [] && s[0] == pat[0] && StartsWith(s[1..], pat[1..]))
  }

  /** StartsWith is the prefix relation. */
  lemma {:induction false} StartsWithIsPrefix(s: string, pat: string)
    ensures StartsWith(s, pat) <==> |pat| <= |s| && s[..|pat|] == pat
  {
    if pat != [] && s != [] {
      StartsWithIsPrefix(s[1..], pat[1..]);
      if |pat| <= |s| {
        assert s[..|pat|] == [s[0]] + s[1..][..|pat| - 1];
        assert pat == [pat[0]] + pat[1..];
      }
    }
  }

  /** A text without the last character of a non-empty `pat` has no occurrence to replace. */
  lemma {:induction false} ReplaceAbsent(s: string, pat: string, rep: string)
    requires pat != [] && pat[|pat| - 1] !in s
    ensures Replace(s, pat, rep) == s
    decreases |s|
  {
    if |s| >= |pat| {
      StartsWithIsPrefix(s, pat);
      assert forall c | c in s[1..] :: c in s;
      ReplaceAbsent(s[1..], pat, rep);
    }
  }

  /** A first character that cannot start `pat` is copied as it is. */
  lemma ReplaceCons(c: char, x: string, pat: string, rep: string)
    requires pat != [] && |pat| <= |x| + 1 && c != pat[0]
    ensures Replace([c] + x, pat, rep) == [c] + Replace(x, pat, rep)
  {
    assert ([c] + x)[1..] == x;
  }

  /** Characters before the first possible start of `pat` are copied one by one. */
  lemma {:induction false} ReplaceSkips(p: string, r: string, pat: string, rep: string)
    requires pat != [] && |pat| <= |r| && pat[0] !in p
    ensures Replace(p + r, pat, rep) == p + Replace(r, pat, rep)
    decreases |p|
  {
    if p == [] {
      assert p + r == r;
    } else {
      var q := p[1..];
      assert pat[0] !in q by { assert forall c | c in q :: c in p; }
      calc {
        Replace(p + r, pat, rep);
        { assert p + r == [p[0]] + (q + r); }
        Replace([p[0]] + (q + r), pat, rep);
        { ReplaceCons(p[0], q + r, pat, rep); }
        [p[0]] + Replace(q + r, pat, rep);
        { ReplaceSkips(q, r, pat, rep); }
        [p[0]] + (q + Replace(r, pat, rep));
        { assert p == [p[0]] + q; }
        p + Replace(r, pat, rep);
      }
    }
  }

  /** Replacing the located blob rewrites exactly the blob span. */
  lemma ReplaceBlob(s: string, sp: Span, rep: string)
    requires IsBlobSpan(s, sp)
    ensures Replace(s, s[sp.start..sp.end], rep) == s[..sp.start] + rep + s[sp.end..]
  {
    var pat := s[sp.start..sp.end];
    assert pat[0] == '{' && pat[|pat| - 1] == '}';
    assert s == s[..sp.start] + s[sp.start..];
    ReplaceSkips(s[..sp.start], s[sp.start..], pat, rep);
    var t := s[sp.start..];
    assert t[..|pat|] == pat;
    StartsWithIsPrefix(t, pat);
    assert t[|pat|..] == s[sp.end..];
    ReplaceAbsent(s[sp.end..], pat, rep);
  }

  /** The blob of `s` exchanged for `newBlob`, or None when there is no blob. */
  function Splice(s: string, newBlob: string): (r: Option<string>)
    ensures r.None? <==> Blob(s).None?
  {
    match Locate(s)
    case None => None
    case Some(sp) => Some(s[..sp.start] + newBlob + s[sp.end..])
  }

  /**
   * `content.replace(match.group(1), newBlob)` is the splice: Python's
   * replace-all touches the located blob and nothing else.
   */
  lemma SpliceIsReplace(s: string, newBlob: string)
    requires Blob(s).Some?
    ensures Splice(s, newBlob) == Some(Replace(s, Blob(s).value, newBlob))
  {
    ReplaceBlob(s, Locate(s).value, newBlob);
  }

  /** What `json.dumps` of a dict yields: text that opens with `{` and closes with `}`. */
  predicate IsBraced(b: string)
  {
    |b| >= 2 && b[0] == '{' && b[|b| - 1] == '}'
  }

  /**
   * Round trip: splicing a braced blob in and searching again finds exactly the
   * new blob, with the old prefix and suffix around it.
   */
  lemma SpliceThenLocate(s: string, sp: Span, newBlob: string)
    requires Locate(s) == Some(sp) && IsBraced(newBlob)
    ensures Splice(s, newBlob).Some?
    ensures var t := Splice(s, newBlob).value;
            && Locate(t) == Some(Span(sp.start, sp.start + |newBlob|))
            && Blob(t) == Some(newBlob)
            && t[..sp.start] == s[..sp.start]
            && t[sp.start + |newBlob|..] == s[sp.end..]
  {
    var t := s[..sp.start] + newBlob + s[sp.end..];
    assert Splice(s, newBlob) == Some(t);
    LocateBetween(s, sp, newBlob);
  }

  /** A braced blob put in place of the blob span is what a new search finds. */
  lemma LocateBetween(s: string, sp: Span, newBlob: string)
    requires IsBlobSpan(s, sp) && IsBraced(newBlob)
    ensures var t := s[..sp.start] + newBlob + s[sp.end..];
            && Locate(t) == Some(Span(sp.start, sp.start + |newBlob|))
            && Blob(t) == Some(newBlob)
            && t[..sp.start] == s[..sp.start]
            && t[sp.start + |newBlob|..] == s[sp.end..]
  {
    var t := s[..sp.start] + newBlob + s[sp.end..];
    var sp' := Span(sp.start, sp.start + |newBlob|);
    assert t[..sp.start] == s[..sp.start];
    assert t[sp'.end..] == s[sp.end..];
    assert t[sp.start..sp'.end] == newBlob;
    assert t[sp.start] == newBlob[0];
    assert t[sp'.end - 1] == newBlob[|newBlob| - 1];
    LocateIsBlobSpan(t, sp');
  }

  /** Splicing the blob that is already there gives the text back unchanged. */
  lemma SpliceSameBlob(s: string)
    requires Blob(s).Some?
    ensures Splice(s, Blob(s).value) == Some(s)
  {
    var sp := Locate(s).value;
    assert s[..sp.start] + s[sp.start..sp.end] + s[sp.end..] == s;
  }
}
