/**
  The display strings of a Candidate: full name, short name and page URL.
  `short_name` indexes the result of `forenames.split(' ')`, which is empty for
  blank forenames; the `nil + ' '` that follows raises, modelled as None.
 */
module Candidates {
  import opened Records
  import opened Text

  datatype Candidate = Candidate(id: int, forenames: string, surname: string)

  /** Forenames, one space, surname. */
  function Name(c: Candidate): (n: string)
    ensures |n| == |c.forenames| + 1 + |c.surname|
    ensures n[..|c.forenames|] == c.forenames && n[|c.forenames|] == ' '
    ensures n[|c.forenames| + 1..] == c.surname
  {
    c.forenames + " " + c.surname
  }

  /** The longest prefix of s that holds no whitespace. */
  function TakeWord(s: string): (w: string)
    ensures |w| <= |s| && forall i :: 0 <= i < |w| ==> w[i] == s[i]
    ensures NoSpace(w)
    ensures |w| == |s| || IsSpace(s[|w|])
  {
    if s == [] || IsSpace(s[0]) then [] else [s[0]] + TakeWord(s[1..])
  }

  /** `s.split(' ')[0]`: the first whitespace-separated field of s, None when s is blank. */
  function FirstWord(s: string): (r: Option<string>)
    ensures r.None? <==> AllSpace(s)
    ensures r.Some? ==> r.value != [] && NoSpace(r.value) && |r.value| <= |s|
  {
    DropSpacesEmptyIffBlank(s);
    var rest := DropSpaces(s);
    if rest == [] then None else Some(TakeWord(rest))
  }

  /** `short_name`: the first forename, one space, the surname; raises on blank forenames. */
  function ShortName(c: Candidate): (r: Option<string>)
    ensures r.None? <==> AllSpace(c.forenames)
    ensures r.Some? ==>
      var k := |r.value| - |c.surname| - 1;
      k > 0 && NoSpace(r.value[..k]) && r.value[k..] == " " + c.surname
  {
    match FirstWord(c.forenames)
    case None => None
    case Some(first) => Some(first + " " + c.surname)
  }

  /** `url`: the candidate's page, "/candidates/" and the decimal id. */
  function Url(c: Candidate): (u: string)
    ensures |u| > 12 && u[..12] == "/candidates/"
    ensures AllDigits(u[12..]) <==> c.id >= 0
  {
    "/candidates/" + IntToString(c.id)
  }

  /** The candidate id a candidate page URL names, if it names one. */
  function CandidateIdFromUrl(u: string): Option<int>
  {
    if |u| >= 12 && u[..12] == "/candidates/" then ParseInt(u[12..]) else None
  }

  /** w stands in s at offset k after nothing but whitespace, and ends at the end of s or at whitespace. */
  predicate IsFieldAt(s: string, k: nat, w: string)
  {
    k + |w| <= |s| && AllSpace(s[..k]) && s[k..k + |w|] == w &&
    (k + |w| == |s| || IsSpace(s[k + |w|]))
  }

  /**
    The word FirstWord returns follows only whitespace in s and ends where s
    ends or where whitespace starts: it is the first field of s.
   */
  lemma FirstWordIsFirstField(s: string)
    ensures FirstWord(s).Some? ==> IsFieldAt(s, |s| - |DropSpaces(s)|, FirstWord(s).value)
  {
    DropSpacesEmptyIffBlank(s);
    var rest := DropSpaces(s);
    if rest != [] {
      var k := |s| - |rest|;
      DropSpacesSplits(s);
      assert s[k..] == rest;
      var w := TakeWord(rest);
      assert s[k..k + |w|] == w by {
        assert forall i :: 0 <= i < |w| ==> s[k..k + |w|][i] == rest[i];
      }
      assert k + |w| < |s| ==> s[k + |w|] == rest[|w|];
    }
  }

  /** A candidate with one forename has a short name equal to the full name. */
  lemma ShortNameOfSingleForename(c: Candidate)
    requires c.forenames != [] && NoSpace(c.forenames)
    ensures ShortName(c) == Some(Name(c))
  {
    assert DropSpaces(c.forenames) == c.forenames;
    TakeWordOfWord(c.forenames);
  }

  lemma {:induction false} TakeWordOfWord(s: string)
    requires NoSpace(s)
    ensures TakeWord(s) == s
  {
    if s != [] {
      TakeWordOfWord(s[1..]);
    }
  }

  /**
    The short name is the full name with the forenames cut down to their first
    field, so it is never longer.
   */
  lemma ShortNameShortensName(c: Candidate)
    ensures ShortName(c).Some? ==>
      var k := |ShortName(c).value| - |c.surname| - 1;
      |ShortName(c).value| <= |Name(c)| &&
      IsFieldAt(c.forenames, |c.forenames| - |DropSpaces(c.forenames)|, ShortName(c).value[..k])
  {
    FirstWordIsFirstField(c.forenames);
  }

  /** The URL of a candidate names that candidate's id. */
  lemma UrlRoundTrip(c: Candidate)
    ensures CandidateIdFromUrl(Url(c)) == Some(c.id)
  {
    var u := Url(c);
    assert u[..12] == "/candidates/" && u[12..] == IntToString(c.id);
    IntToStringRoundTrip(c.id);
  }

  /** Different candidates have different URLs. */
  lemma UrlsAreDistinct(c: Candidate, d: Candidate)
    requires c.id != d.id
    ensures Url(c) != Url(d)
  {
    UrlRoundTrip(c);
    UrlRoundTrip(d);
  }
}
