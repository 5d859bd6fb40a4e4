/** The interest-tag logic of the matchmaking engine: normalising a tag list, intersecting two
    lists (getCommonInterests) and capitalising the shared tags for display. */
module Interests {
  import opened Wrappers
  import opened Text

  /** `i.trim().toLowerCase()`. */
  function NormalizeTag(t: string): string {
    ToLower(Trim(t))
  }

  /** A tag in normal form: non-empty, no surrounding whitespace, no upper-case letter. */
  predicate IsNormalTag(t: string) {
    t != [] && IsTrimmed(t) && IsLower(t)
  }

  /** Normalising yields a normal tag or the empty string, and leaves a normal tag alone. */
  lemma NormalizeTagFacts(t: string)
    ensures NormalizeTag(t) != [] ==> IsNormalTag(NormalizeTag(t))
    ensures IsNormalTag(t) ==> NormalizeTag(t) == t
  {
    TrimIsTrimmed(t);
    ToLowerFacts(Trim(t));
    if IsNormalTag(t) {
      TrimOfTrimmed(t);
      ToLowerOfLower(t);
    }
  }

  /** `arr.map(i => i.trim().toLowerCase()).filter(i => i.length > 0)`. */
  function Normalize(tags: seq<string>): (r: seq<string>)
    ensures |r| <= |tags|
    ensures forall x :: x in r ==> IsNormalTag(x)
  {
    if tags == [] then []
    else
      var t := NormalizeTag(tags[0]);
      NormalizeTagFacts(tags[0]);
      (if t != [] then [t] else []) + Normalize(tags[1..])
  }

  /** `Array.isArray(x) ? normalize(x) : []`, where None stands for a value that is not an array. */
  function NormalizeList(tags: Option<seq<string>>): seq<string> {
    match tags
    case None => []
    case Some(ts) => Normalize(ts)
  }

  /** Normalising works element by element, keeping the order of the input. */
  lemma {:induction false} NormalizeConcat(a: seq<string>, b: seq<string>)
    ensures Normalize(a + b) == Normalize(a) + Normalize(b)
  {
    if a == [] {
      assert a + b == b;
    } else {
      assert (a + b)[0] == a[0];
      assert (a + b)[1..] == a[1..] + b;
      NormalizeConcat(a[1..], b);
    }
  }

  /** The normalised list holds exactly the non-empty normalised tags of the input. */
  lemma {:induction false} NormalizeMembers(tags: seq<string>)
    ensures forall i :: 0 <= i < |tags| && NormalizeTag(tags[i]) != [] ==> NormalizeTag(tags[i]) in Normalize(tags)
    ensures forall x :: x in Normalize(tags) ==> exists i :: 0 <= i < |tags| && NormalizeTag(tags[i]) == x
  {
    if tags != [] {
      NormalizeMembers(tags[1..]);
      forall x | x in Normalize(tags)
        ensures exists i :: 0 <= i < |tags| && NormalizeTag(tags[i]) == x
      {
        if x != NormalizeTag(tags[0]) {
          assert x in Normalize(tags[1..]);
          var i :| 0 <= i < |tags[1..]| && NormalizeTag(tags[1..][i]) == x;
          assert NormalizeTag(tags[i + 1]) == x;
        }
      }
      forall i | 0 <= i < |tags| && NormalizeTag(tags[i]) != []
        ensures NormalizeTag(tags[i]) in Normalize(tags)
      {
        if i > 0 {
          assert tags[i] == tags[1..][i - 1];
        }
      }
    }
  }

  /** A list of normal tags normalises to itself, so normalising twice is normalising once. */
  lemma {:induction false} NormalizeOfNormal(tags: seq<string>)
    requires forall x :: x in tags ==> IsNormalTag(x)
    ensures Normalize(tags) == tags
  {
    if tags != [] {
      var t, rest := tags[0], tags[1..];
      assert t in tags;
      NormalizeTagFacts(t);
      assert NormalizeTag(t) == t && t != [];
      forall x | x in rest
        ensures IsNormalTag(x)
      {
        assert x in tags;
      }
      NormalizeOfNormal(rest);
      assert Normalize(tags) == [t] + Normalize(rest);
      assert tags == [t] + rest;
    }
  }

  lemma NormalizeIdempotent(tags: seq<string>)
    ensures Normalize(Normalize(tags)) == Normalize(tags)
  {
    NormalizeOfNormal(Normalize(tags));
  }

  /** `xs.filter(i => ys.includes(i))`. */
  function KeepShared(xs: seq<string>, ys: seq<string>): (r: seq<string>)
    ensures forall x :: x in r <==> x in xs && x in ys
    ensures |r| <= |xs|
  {
    if xs == [] then []
    else (if xs[0] in ys then [xs[0]] else []) + KeepShared(xs[1..], ys)
  }

  /** The filter keeps the first list's order. */
  lemma {:induction false} KeepSharedConcat(a: seq<string>, b: seq<string>, ys: seq<string>)
    ensures KeepShared(a + b, ys) == KeepShared(a, ys) + KeepShared(b, ys)
  {
    if a == [] {
      assert a + b == b;
    } else {
      assert (a + b)[0] == a[0];
      assert (a + b)[1..] == a[1..] + b;
      KeepSharedConcat(a[1..], b, ys);
    }
  }

  /** The filter keeps every copy of a shared tag and drops every copy of an unshared one. */
  lemma {:induction false} KeepSharedCount(xs: seq<string>, ys: seq<string>, x: string)
    ensures multiset(KeepShared(xs, ys))[x] == if x in ys then multiset(xs)[x] else 0
  {
    if xs != [] {
      var head := if xs[0] in ys then [xs[0]] else [];
      KeepSharedCount(xs[1..], ys, x);
      assert KeepShared(xs, ys) == head + KeepShared(xs[1..], ys);
      assert multiset(KeepShared(xs, ys)) == multiset(head) + multiset(KeepShared(xs[1..], ys));
      assert xs == [xs[0]] + xs[1..];
      assert multiset(xs) == multiset([xs[0]]) + multiset(xs[1..]);
    }
  }

  /** getCommonInterests(a, b); None stands for an argument that is not an array. */
  function CommonInterests(a: Option<seq<string>>, b: Option<seq<string>>): (r: seq<string>)
    ensures a.None? || b.None? ==> r == []
    ensures a.Some? && b.Some? ==>
              forall x :: x in r <==> x in Normalize(a.value) && x in Normalize(b.value)
    ensures forall x :: x in r ==> IsNormalTag(x)
  {
    if a.None? || b.None? then []
    else KeepShared(Normalize(a.value), Normalize(b.value))
  }

  /** The common interests keep the first list's order: they are computed tag by tag along it. */
  lemma CommonInterestsOrder(a1: seq<string>, a2: seq<string>, b: seq<string>)
    ensures CommonInterests(Some(a1 + a2), Some(b))
         == CommonInterests(Some(a1), Some(b)) + CommonInterests(Some(a2), Some(b))
  {
    NormalizeConcat(a1, a2);
    KeepSharedConcat(Normalize(a1), Normalize(a2), Normalize(b));
  }

  /** Each normalised tag of the first list appears in the result as often as it appears in the
      normalised first list when the normalised second list has it, and not at all otherwise. */
  lemma CommonInterestsCount(a: seq<string>, b: seq<string>, x: string)
    ensures multiset(CommonInterests(Some(a), Some(b)))[x]
         == if x in Normalize(b) then multiset(Normalize(a))[x] else 0
  {
    KeepSharedCount(Normalize(a), Normalize(b), x);
  }

  /** Two lists share an interest exactly when their normalised forms have a tag in common. */
  lemma SharesInterest(a: seq<string>, b: seq<string>)
    ensures |CommonInterests(Some(a), Some(b))| > 0
        <==> exists x :: x in Normalize(a) && x in Normalize(b)
  {
    var r := CommonInterests(Some(a), Some(b));
    if |r| > 0 {
      assert r[0] in r;
      assert r[0] in Normalize(a) && r[0] in Normalize(b);
    }
    if exists x :: x in Normalize(a) && x in Normalize(b) {
      var x :| x in Normalize(a) && x in Normalize(b);
      assert x in r;
    }
  }

  /** getCommonInterests re-normalises lists the caller has normalised already; that changes nothing. */
  lemma CommonOfNormalized(a: seq<string>, b: seq<string>)
    ensures CommonInterests(Some(Normalize(a)), Some(Normalize(b)))
         == KeepShared(Normalize(a), Normalize(b))
  {
    NormalizeIdempotent(a);
    NormalizeIdempotent(b);
  }

  /** `i.charAt(0).toUpperCase() + i.slice(1)`. */
  function Capitalize(t: string): string {
    if t == [] then [] else [UpperChar(t[0])] + t[1..]
  }

  /** The display form of a list of interests. */
  function CapitalizeAll(ts: seq<string>): (r: seq<string>)
    ensures |r| == |ts|
    ensures forall i :: 0 <= i < |ts| ==> r[i] == Capitalize(ts[i])
  {
    seq(|ts|, i requires 0 <= i < |ts| => Capitalize(ts[i]))
  }

  /** Capitalising keeps the length and everything after the first character, upper-cases a
      lower-case first letter, and changes nothing but the case of the first character. */
  lemma CapitalizeFacts(t: string)
    ensures |Capitalize(t)| == |t|
    ensures t != [] ==> Capitalize(t)[1..] == t[1..]
    ensures t != [] ==> !IsAsciiLower(Capitalize(t)[0])
    ensures t != [] && IsAsciiLower(t[0]) ==> IsAsciiUpper(Capitalize(t)[0])
    ensures t != [] ==> LowerChar(Capitalize(t)[0]) == LowerChar(t[0])
  {
    if t != [] {
      var c := Capitalize(t);
      assert c == [UpperChar(t[0])] + t[1..];
      assert c[0] == UpperChar(t[0]);
      assert c[1..] == t[1..];
    }
  }

  /** The display form of a normal tag is undone by normalisation: trimming and lower-casing it
      gives the tag back. */
  lemma CapitalizeUndone(t: string)
    requires IsNormalTag(t)
    ensures NormalizeTag(Capitalize(t)) == t
  {
    var c := Capitalize(t);
    assert |c| == |t|;
    assert IsTrimmed(c);
    TrimOfTrimmed(c);
    assert ToLower(c)[0] == t[0];
    assert forall i :: 0 < i < |t| ==> ToLower(c)[i] == t[i];
  }

  /** The display form shown to users for the shared tags "anime" and "lofi hip hop". */
  lemma CapitalizeExample()
    ensures CapitalizeAll(["anime", "lofi hip hop"]) == ["Anime", "Lofi hip hop"]
  {
    assert Capitalize("anime") == "Anime";
    assert Capitalize("lofi hip hop") == "Lofi hip hop";
  }
}
