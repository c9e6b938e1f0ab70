/** Names for fetched rule lists: derived from the URL, made unique by a numeric suffix, and
  * stable for the life of one namer. */
module Namers {
  import opened Decimals

  // What a URL's last path element reduces to once its extension is cut and unsafe characters
  // are replaced; the regular expression and path handling stay behind stem.
  function Base(stem: string -> string, url: string): string {
    if stem(url) == "" then "rules" else stem(url)
  }

  // The k-th name tried for a base: the base itself, then base-2, base-3 and so on.
  function Candidate(base: string, k: nat): string {
    if k == 0 then base else base + "-" + Decimal(k + 1)
  }

  lemma CandidateInjective(base: string, j: nat, k: nat)
    requires Candidate(base, j) == Candidate(base, k)
    ensures j == k
  {
    if j > 0 && k > 0 {
      var s, t := Candidate(base, j), Candidate(base, k);
      assert s[|base| + 1..] == Decimal(j + 1) && t[|base| + 1..] == Decimal(k + 1);
      DecimalInjective(j + 1, k + 1);
    } else {
      assert |Candidate(base, j)| == |Candidate(base, k)|;
    }
  }

  // k is the first candidate nobody uses.
  ghost predicate FirstFree(base: string, used: set<string>, k: nat) {
    Candidate(base, k) !in used && forall j: nat :: j < k ==> Candidate(base, j) in used
  }

  lemma {:induction false} TriedFill(base: string, used: set<string>, k: nat)
    requires forall j: nat :: j < k ==> Candidate(base, j) in used
    ensures k <= |used|
    decreases k
  {
    if k > 0 {
      var last := Candidate(base, k - 1);
      forall j: nat | j < k - 1 ensures Candidate(base, j) in used - {last} {
        if Candidate(base, j) == last { CandidateInjective(base, j, k - 1); }
      }
      TriedFill(base, used - {last}, k - 1);
    }
  }

  lemma {:induction false} FreeFrom(base: string, used: set<string>, k: nat)
    requires forall j: nat :: j < k ==> Candidate(base, j) in used
    ensures exists f: nat :: FirstFree(base, used, f)
    decreases |used| + 1 - k
  {
    if Candidate(base, k) in used {
      TriedFill(base, used, k + 1);
      FreeFrom(base, used, k + 1);
    } else {
      assert FirstFree(base, used, k);
    }
  }

  ghost function FreeIndex(base: string, used: set<string>): (k: nat)
    ensures FirstFree(base, used, k)
  {
    FreeFrom(base, used, 0);
    var k: nat :| FirstFree(base, used, k);
    k
  }

  lemma FreeIndexIs(base: string, used: set<string>, k: nat)
    requires FirstFree(base, used, k)
    ensures FreeIndex(base, used) == k
  {
    var f := FreeIndex(base, used);
    var c, d := Candidate(base, f), Candidate(base, k);
  }

  // The names a fresh namer has given after being asked for each URL in turn.
  ghost function Named(stem: string -> string, urls: seq<string>): map<string, string> {
    if urls == [] then map[]
    else
      var m := Named(stem, urls[..|urls| - 1]);
      var url := urls[|urls| - 1];
      if url in m then m
      else m[url := Candidate(Base(stem, url), FreeIndex(Base(stem, url), m.Values))]
  }

  lemma ValuesWith(m: map<string, string>, key: string, value: string)
    requires key !in m
    ensures m[key := value].Values == m.Values + {value}
  {
    var m' := m[key := value];
    forall v | v in m.Values + {value} ensures v in m'.Values {
      if v == value {
        assert m'[key] == v;
      } else {
        var k :| k in m && m[k] == v;
        assert m'[k] == v;
      }
    }
  }

  class Namer {
    const stem: string -> string
    var byURL: map<string, string>
    var used: set<string>
    ghost var asked: seq<string>

    ghost predicate Valid()
      reads this
    {
      byURL == Named(stem, asked) && used == byURL.Values
    }

    constructor (stem: string -> string)
      ensures Valid() && this.stem == stem && asked == []
    {
      this.stem := stem;
      byURL, used, asked := map[], {}, [];
    }

    method Of(url: string) returns (name: string, first: bool)
      requires Valid()
      modifies this
      ensures Valid() && asked == old(asked) + [url]
      ensures url in Named(stem, asked) && name == Named(stem, asked)[url]
      ensures first <==> url !in Named(stem, old(asked))
    {
      assert (asked + [url])[..|asked|] == asked;
      asked := asked + [url];
      if url in byURL {
        return byURL[url], false;
      }
      name := Pick(Base(stem, url));
      ValuesWith(byURL, url, name);
      used := used + {name};
      byURL := byURL[url := name];
      return name, true;
    }

    method Pick(base: string) returns (name: string)
      ensures name == Candidate(base, FreeIndex(base, used))
    {
      name := base;
      var i := 2;
      while name in used
        invariant i >= 2 && name == Candidate(base, i - 2)
        invariant forall j: nat :: j < i - 2 ==> Candidate(base, j) in used
        decreases |used| + 2 - i
      {
        TriedFill(base, used, i - 1);
        name := base + "-" + Decimal(i);
        i := i + 1;
      }
      FreeIndexIs(base, used, i - 2);
    }
  }

  // ---------- names are unique, and stable ----------

  lemma {:induction false} NamedHolds(stem: string -> string, urls: seq<string>)
    ensures Named(stem, urls).Keys == set u | u in urls
  {
    if urls != [] {
      assert urls == urls[..|urls| - 1] + [urls[|urls| - 1]];
      NamedHolds(stem, urls[..|urls| - 1]);
    }
  }

  // Distinct lists never share a name, whatever their bases look like.
  lemma {:induction false} NamesDistinct(stem: string -> string, urls: seq<string>, u: string, v: string)
    requires u in Named(stem, urls) && v in Named(stem, urls) && u != v
    ensures Named(stem, urls)[u] != Named(stem, urls)[v]
  {
    var m := Named(stem, urls[..|urls| - 1]);
    if u in m && v in m {
      NamesDistinct(stem, urls[..|urls| - 1], u, v);
    } else if u in m {
      assert m[u] in m.Values;
    } else {
      assert m[v] in m.Values;
    }
  }

  // A name once given is kept.
  lemma {:induction false} NamesStable(stem: string -> string, urls: seq<string>, n: nat, u: string)
    requires n <= |urls| && u in Named(stem, urls[..n])
    ensures u in Named(stem, urls) && Named(stem, urls)[u] == Named(stem, urls[..n])[u]
  {
    if n < |urls| {
      var init := urls[..|urls| - 1];
      assert init[..n] == urls[..n];
      NamesStable(stem, init, n, u);
    } else {
      assert urls[..n] == urls;
    }
  }

  // The first list of a stem is called by it, or "rules" when nothing is left of it; the second of
  // the same stem gets "-2".
  lemma FirstTwoNames(stem: string -> string, a: string, b: string)
    requires a != b && stem(a) == stem(b)
    ensures var name := if stem(a) == "" then "rules" else stem(a);
            a in Named(stem, [a, b]) && b in Named(stem, [a, b]) &&
            Named(stem, [a, b])[a] == name && Named(stem, [a, b])[b] == name + "-2"
  {
    var base := Base(stem, a);
    assert [a, b][..1] == [a] && [a][..0] == [];
    assert Candidate(base, 0) == base && Candidate(base, 1) == base + "-" + Decimal(2) && Decimal(2) == "2";
    FreeIndexIs(base, {}, 0);
    assert Named(stem, [a]) == map[a := base];
    assert Named(stem, [a]).Values == {base};
    assert |Candidate(base, 1)| > |base|;
    FreeIndexIs(base, {base}, 1);
  }

  // ---------- the name a list gets, by its rank among its namesakes ----------

  // No base is another base with a suffix, so that lists compete only with their namesakes.
  ghost predicate BasesApart(stem: string -> string, urls: seq<string>) {
    forall u, v, j: nat, k: nat {:trigger Candidate(Base(stem, u), j), Candidate(Base(stem, v), k)} ::
      u in urls && v in urls && Candidate(Base(stem, u), j) == Candidate(Base(stem, v), k) ==>
        Base(stem, u) == Base(stem, v)
  }

  // The distinct lists among urls whose base is base.
  function Namesakes(stem: string -> string, urls: seq<string>, base: string): set<string> {
    set u | u in urls && Base(stem, u) == base
  }

  // How many namesakes come before the first mention of u.
  function Rank(stem: string -> string, urls: seq<string>, u: string): nat
    requires u in urls
  {
    var init := urls[..|urls| - 1];
    assert urls == init + [urls[|urls| - 1]];
    if u in init then Rank(stem, init, u) else |Namesakes(stem, init, Base(stem, u))|
  }

  lemma OneMoreNamesake(stem: string -> string, init: seq<string>, last: string, base: string)
    ensures |Namesakes(stem, init + [last], base)| ==
            |Namesakes(stem, init, base)| + (if last !in init && Base(stem, last) == base then 1 else 0)
  {
    var before, after := Namesakes(stem, init, base), Namesakes(stem, init + [last], base);
    if last !in init && Base(stem, last) == base {
      assert after == before + {last};
    } else {
      assert after == before;
    }
  }

  lemma GivesNameTo(stem: string -> string, init: seq<string>, last: string)
    requires last !in Named(stem, init)
    ensures Named(stem, init + [last]).Values ==
            Named(stem, init).Values + {Candidate(Base(stem, last), FreeIndex(Base(stem, last), Named(stem, init).Values))}
  {
    assert (init + [last])[..|init|] == init;
    var m := Named(stem, init);
    ValuesWith(m, last, Candidate(Base(stem, last), FreeIndex(Base(stem, last), m.Values)));
  }

  lemma SameCandidate(stem: string -> string, all: seq<string>, u: string, j: nat, v: string, k: nat)
    requires BasesApart(stem, all) && u in all && v in all
    ensures Candidate(Base(stem, u), j) == Candidate(Base(stem, v), k) <==> Base(stem, u) == Base(stem, v) && j == k
  {
    if Candidate(Base(stem, u), j) == Candidate(Base(stem, v), k) {
      CandidateInjective(Base(stem, u), j, k);
    }
  }

  // The names in use for one base are exactly its first candidates, one per namesake.
  lemma {:induction false} NamesakesFill(stem: string -> string, urls: seq<string>, v: string, k: nat, all: seq<string>)
    requires BasesApart(stem, all) && v in all && forall u :: u in urls ==> u in all
    ensures Candidate(Base(stem, v), k) in Named(stem, urls).Values <==> k < |Namesakes(stem, urls, Base(stem, v))|
    decreases |urls|, 1
  {
    if urls != [] {
      var n := |urls| - 1;
      var init, last := urls[..n], urls[n];
      assert urls == init + [last];
      NamedHolds(stem, init);
      NamesakesFill(stem, init, v, k, all);
      OneMoreNamesake(stem, init, last, Base(stem, v));
      if last !in init {
        LastFree(stem, urls, all);
        GivesNameTo(stem, init, last);
        SameCandidate(stem, all, v, k, last, |Namesakes(stem, init, Base(stem, last))|);
      }
    }
  }

  lemma {:induction false} LastFree(stem: string -> string, urls: seq<string>, all: seq<string>)
    requires urls != [] && BasesApart(stem, all) && forall u :: u in urls ==> u in all
    ensures var init := urls[..|urls| - 1];
            var base := Base(stem, urls[|urls| - 1]);
            FreeIndex(base, Named(stem, init).Values) == |Namesakes(stem, init, base)|
    decreases |urls|, 0
  {
    var init, last := urls[..|urls| - 1], urls[|urls| - 1];
    var base := Base(stem, last);
    var count := |Namesakes(stem, init, base)|;
    forall j: nat ensures Candidate(base, j) in Named(stem, init).Values <==> j < count {
      NamesakesFill(stem, init, last, j, all);
    }
    FreeIndexIs(base, Named(stem, init).Values, count);
  }

  lemma {:induction false} NameByRank(stem: string -> string, urls: seq<string>, u: string, all: seq<string>)
    requires BasesApart(stem, all) && u in urls && forall x :: x in urls ==> x in all
    ensures u in Named(stem, urls)
    ensures Named(stem, urls)[u] == Candidate(Base(stem, u), Rank(stem, urls, u))
  {
    var init, last := urls[..|urls| - 1], urls[|urls| - 1];
    assert urls == init + [last];
    NamedHolds(stem, init);
    if u in init {
      NameByRank(stem, init, u, all);
    } else {
      LastFree(stem, urls, all);
    }
  }

  // ---------- lists that cannot get in each other's way ----------

  // The mentions of the lists in near, in order.
  function Among(urls: seq<string>, near: set<string>): (r: seq<string>)
    ensures forall u :: u in r <==> u in urls && u in near
  {
    if urls == [] then []
    else
      var init, last := urls[..|urls| - 1], urls[|urls| - 1];
      assert urls == init + [last];
      Among(init, near) + if last in near then [last] else []
  }

  // Nothing outside near could ever be given a name that something in near might want.
  ghost predicate Unrivalled(stem: string -> string, near: set<string>, urls: seq<string>) {
    forall u, v, j: nat, k: nat {:trigger Candidate(Base(stem, u), j), Candidate(Base(stem, v), k)} ::
      u in near && v in urls && v !in near ==> Candidate(Base(stem, u), j) != Candidate(Base(stem, v), k)
  }

  lemma {:induction false} NameIsCandidate(stem: string -> string, urls: seq<string>, u: string)
    requires u in Named(stem, urls)
    ensures exists k: nat :: Named(stem, urls)[u] == Candidate(Base(stem, u), k)
  {
    if u in Named(stem, urls[..|urls| - 1]) { NameIsCandidate(stem, urls[..|urls| - 1], u); }
  }

  lemma NamedOneMore(stem: string -> string, init: seq<string>, last: string)
    ensures var m := Named(stem, init);
            Named(stem, init + [last]) ==
              if last in m then m else m[last := Candidate(Base(stem, last), FreeIndex(Base(stem, last), m.Values))]
  {
    assert (init + [last])[..|init|] == init;
  }

  // A list of near is named the same with and without the rest.
  ghost predicate NamedAlone(stem: string -> string, urls: seq<string>, near: set<string>, u: string) {
    var m, m' := Named(stem, urls), Named(stem, Among(urls, near));
    (u in m <==> u in m') && (u in m ==> m[u] == m'[u])
  }

  lemma SameFreeIndex(stem: string -> string, init: seq<string>, near: set<string>, all: seq<string>, last: string)
    requires Unrivalled(stem, near, all) && last in near && forall x :: x in init ==> x in all
    requires forall u :: u in near ==> NamedAlone(stem, init, near, u)
    ensures var base := Base(stem, last);
            FreeIndex(base, Named(stem, init).Values) == FreeIndex(base, Named(stem, Among(init, near)).Values)
  {
    var base := Base(stem, last);
    var m, m' := Named(stem, init), Named(stem, Among(init, near));
    NamedHolds(stem, init);
    NamedHolds(stem, Among(init, near));
    forall j: nat ensures Candidate(base, j) in m.Values <==> Candidate(base, j) in m'.Values {
      if Candidate(base, j) in m.Values {
        var w :| w in m && m[w] == Candidate(base, j);
        NameIsCandidate(stem, init, w);
        assert w in near && NamedAlone(stem, init, near, w);
      }
      if Candidate(base, j) in m'.Values {
        var w :| w in m' && m'[w] == Candidate(base, j);
        assert NamedAlone(stem, init, near, w);
      }
    }
    FreeIndexIs(base, m'.Values, FreeIndex(base, m.Values));
  }

  // The rest of the lists might as well not be there.
  lemma {:induction false} OnlyNearMatters(stem: string -> string, urls: seq<string>, near: set<string>, all: seq<string>)
    requires Unrivalled(stem, near, all) && forall x :: x in urls ==> x in all
    ensures forall u :: u in near ==> NamedAlone(stem, urls, near, u)
  {
    if urls != [] {
      var init, last := urls[..|urls| - 1], urls[|urls| - 1];
      assert urls == init + [last];
      OnlyNearMatters(stem, init, near, all);
      var among := Among(init, near);
      NamedOneMore(stem, init, last);
      if last in near {
        assert Among(urls, near) == among + [last];
        NamedOneMore(stem, among, last);
        assert NamedAlone(stem, init, near, last);
        SameFreeIndex(stem, init, near, all, last);
      } else {
        assert Among(urls, near) == among;
      }
      forall u | u in near ensures NamedAlone(stem, urls, near, u) {
        assert NamedAlone(stem, init, near, u);
      }
    }
  }
}
