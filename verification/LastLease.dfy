/** Extraction of the last lease of a dhclient lease file: the group of
    `(?:\A|\s)(lease\s*[{][^}{]*[}])\s*\z`.

    A match is stated on positions, with no reference to how the text is searched; `Extract` reads the
    text backwards, and is proved to find the match exactly when there is one.
 */
module LastLease {
  import opened Common

  datatype Result<T> = Ok(value: T) | Err(error: Error)

  datatype Error = CannotRead | NoLease

  const LEASE := "lease"

  predicate Space(c: char) {
    c == ' ' || c == '\t' || c == '\n' || c == '\r' || c == 12 as char
  }

  /** White space is tab, line feed, form feed, carriage return and blank. */
  lemma SpaceIs(c: char)
    ensures Space(c) <==> c as int in {9, 10, 12, 13, 32}
  {
  }

  predicate NoBrace(c: char) {
    c != '{' && c != '}'
  }

  ghost predicate All(p: char -> bool, s: string, from: nat, to: nat)
    requires from <= to <= |s|
  {
    forall i | from <= i < to :: p(s[i])
  }

  // ----- what a match is -----

  /** The group starts at `start`, its brace opens at `open` and the text after `end` is white space. */
  ghost predicate Match(s: string, start: nat, open: nat, end: nat) {
    && start + 5 <= open < end <= |s| && open + 1 < end
    && (start == 0 || Space(s[start - 1]))
    && s[start..start + 5] == LEASE
    && All(Space, s, start + 5, open)
    && s[open] == '{'
    && All(NoBrace, s, open + 1, end - 1)
    && s[end - 1] == '}'
    && All(Space, s, end, |s|)
  }

  // ----- reading backwards -----

  /** Where the run of `p` characters that ends at `n` begins. */
  function Back(p: char -> bool, s: string, n: nat): (m: nat)
    requires n <= |s|
    ensures m <= n && All(p, s, m, n)
    ensures m == 0 || !p(s[m - 1])
  {
    if n > 0 && p(s[n - 1]) then Back(p, s, n - 1) else n
  }

  lemma {:induction false} BackUnique(p: char -> bool, s: string, n: nat, m: nat)
    requires m <= n <= |s| && All(p, s, m, n) && (m == 0 || !p(s[m - 1]))
    ensures m == Back(p, s, n)
  {
    if m < n { BackUnique(p, s, n - 1, m); }
  }

  function Extract(s: string): Option<string> {
    var end := Back(Space, s, |s|);
    if end == 0 || s[end - 1] != '}' then None
    else
      var body := Back(NoBrace, s, end - 1);
      if body == 0 || s[body - 1] != '{' then None
      else
        var word := Back(Space, s, body - 1);
        if word < 5 || s[word - 5..word] != LEASE then None
        else if word > 5 && !Space(s[word - 6]) then None
        else Some(s[word - 5..end])
  }

  method ExtractLastLease(file: Option<string>) returns (r: Result<string>)
    ensures file.None? ==> r == Err(CannotRead)
    ensures file.Some? && (forall a: nat, b: nat, c: nat :: !Match(file.value, a, b, c)) ==> r == Err(NoLease)
    ensures forall a: nat, b: nat, c: nat ::
              file.Some? && Match(file.value, a, b, c) ==> r == Ok(file.value[a..c])
  {
    if file.None? {
      return Err(CannotRead);
    }
    forall a: nat, b: nat, c: nat | Match(file.value, a, b, c)
      ensures Extract(file.value) == Some(file.value[a..c])
    {
      MatchFound(file.value, a, b, c);
    }
    var found := Extract(file.value);
    if found.None? {
      return Err(NoLease);
    }
    ghost var a, b, c := FoundMatches(file.value);
    return Ok(found.value);
  }

  // ----- the two agree -----

  /** A match ends where trailing white space begins, opens at the last brace before, and starts with
      the word before that. */
  lemma MatchPlaces(s: string, start: nat, open: nat, end: nat)
    requires Match(s, start, open, end)
    ensures end == Back(Space, s, |s|)
    ensures open + 1 == Back(NoBrace, s, end - 1)
    ensures start + 5 == Back(Space, s, open)
  {
    BackUnique(Space, s, |s|, end);
    BackUnique(NoBrace, s, end - 1, open + 1);
    assert s[start + 4] == s[start..start + 5][4] == 'e';
    BackUnique(Space, s, open, start + 5);
  }

  /** A text matches in one way only. */
  lemma MatchUnique(s: string, start: nat, open: nat, end: nat, start': nat, open': nat, end': nat)
    requires Match(s, start, open, end) && Match(s, start', open', end')
    ensures start == start' && open == open' && end == end'
  {
    MatchPlaces(s, start, open, end);
    MatchPlaces(s, start', open', end');
  }

  lemma MatchFound(s: string, start: nat, open: nat, end: nat)
    requires Match(s, start, open, end)
    ensures Extract(s) == Some(s[start..end])
  {
    MatchPlaces(s, start, open, end);
  }

  lemma FoundMatches(s: string) returns (start: nat, open: nat, end: nat)
    requires Extract(s).Some?
    ensures Match(s, start, open, end) && Extract(s) == Some(s[start..end])
  {
    end := Back(Space, s, |s|);
    open := Back(NoBrace, s, end - 1) - 1;
    start := Back(Space, s, open) - 5;
    hide Back, Space, NoBrace;
    assert Match(s, start, open, end);
  }

  /** Extraction succeeds exactly on texts that match, with the group of the match. */
  lemma ExtractIff(s: string, lease: string)
    ensures Extract(s) == Some(lease) <==>
            exists start: nat, open: nat, end: nat :: Match(s, start, open, end) && lease == s[start..end]
  {
    if Extract(s) == Some(lease) {
      var start, open, end := FoundMatches(s);
    }
    forall start: nat, open: nat, end: nat | Match(s, start, open, end) && lease == s[start..end]
      ensures Extract(s) == Some(lease)
    {
      MatchFound(s, start, open, end);
    }
  }

  // ----- what follows -----

  /** A brace-closed lease block: the text is its own last lease and nothing more. */
  ghost predicate IsLease(lease: string) {
    exists open: nat :: Match(lease, 0, open, |lease|)
  }

  /** A match depends on the group, the character before it and the text after it only. */
  lemma MatchMoves(s: string, t: string, k: int, start: nat, open: nat, end: nat)
    requires Match(s, start, open, end)
    requires 0 <= k + start && k + end <= |t|
    requires forall i | start <= i < end :: s[i] == t[k + i]
    requires k + start == 0 || Space(t[k + start - 1])
    requires All(Space, t, k + end, |t|)
    ensures Match(t, k + start, k + open, k + end)
    ensures t[k + start..k + end] == s[start..end]
    ensures Extract(t) == Some(s[start..end])
  {
    hide Space, Back, Extract;
    assert forall j | k + start <= j < k + end :: t[j] == s[j - k];
    assert t[k + start..k + start + 5] == s[start..start + 5];
    assert t[k + start..k + end] == s[start..end];
    MatchFound(t, k + start, k + open, k + end);
  }

  /** The lease is the same after any white space, and after any text that ends in white space. */
  lemma AppendedIsExtracted(pre: string, lease: string, post: string)
    requires IsLease(lease) && forall i | 0 <= i < |post| :: Space(post[i])
    ensures Extract(pre + lease + post) == (if pre == "" || Space(pre[|pre| - 1]) then Some(lease) else None)
  {
    hide Match, Extract, Space;
    var open: nat :| Match(lease, 0, open, |lease|);
    var t := pre + lease + post;
    if pre == "" || Space(pre[|pre| - 1]) {
      MatchMoves(lease, t, |pre|, 0, open, |lease|);
      assert lease[0..|lease|] == lease;
    } else {
      GluedIsNotExtracted(pre, lease, post, open);
    }
  }

  /** A lease block glued to other text is not a lease. */
  lemma GluedIsNotExtracted(pre: string, lease: string, post: string, open: nat)
    requires Match(lease, 0, open, |lease|) && forall i | 0 <= i < |post| :: Space(post[i])
    requires pre != "" && !Space(pre[|pre| - 1])
    ensures Extract(pre + lease + post) == None
  {
    var t := pre + lease + post;
    assert forall i | |pre| <= i < |pre| + |lease| :: t[i] == lease[i - |pre|];
    assert t[|pre| + 4] == lease[4] == lease[0..5][4] == 'e';
    BackUnique(Space, t, |t|, |pre| + |lease|);
    BackUnique(NoBrace, t, |pre| + |lease| - 1, |pre| + open + 1);
    BackUnique(Space, t, |pre| + open, |pre| + 5);
    assert t[|pre| - 1] == pre[|pre| - 1];
  }

  lemma Idempotent(s: string)
    requires Extract(s).Some?
    ensures IsLease(Extract(s).value)
    ensures Extract(Extract(s).value) == Extract(s)
  {
    hide Extract, Space;
    var start, open, end := FoundMatches(s);
    var lease := s[start..end];
    MatchMoves(s, lease, -(start as int), start, open, end);
    assert Match(lease, 0, open - start, |lease|);
  }

  lemma TrailingSpace(s: string, post: string)
    requires forall i | 0 <= i < |post| :: Space(post[i])
    ensures Extract(s + post) == Extract(s)
  {
    hide Extract;
    var t := s + post;
    if Extract(s).Some? {
      var start, open, end := FoundMatches(s);
      MatchMoves(s, t, 0, start, open, end);
    } else if Extract(t).Some? {
      var start, open, end := FoundMatches(t);
      assert t[end - 1] !in post;
      assert start > 0 ==> s[start - 1] == t[start - 1];
      assert forall i | end <= i < |s| :: s[i] == t[i];
      MatchMoves(t, s, 0, start, open, end);
    }
  }
}
