/** The page scraper: which pages it fetches, where it saves each one, and how it
    records its progress so that an interrupted run can be resumed. */
module ScrapeRevealjs {
  import opened PyStr
  import opened ProgressFile

  /** The documentation pages, as paths below the site's base URL. */
  const Pages: seq<string> := [
    "/",
    "/installation/",
    "/markup/",
    "/markdown/",
    "/backgrounds/",
    "/media/",
    "/lightbox/",
    "/code/",
    "/math/",
    "/fragments/",
    "/links/",
    "/layout/",
    "/slide-visibility/",
    "/themes/",
    "/transitions/",
    "/config/",
    "/presentation-size/",
    "/vertical-slides/",
    "/auto-animate/",
    "/auto-slide/",
    "/speaker-view/",
    "/scroll-view/",
    "/slide-numbers/",
    "/jump-to-slide/",
    "/touch-navigation/",
    "/pdf-export/",
    "/overview/",
    "/fullscreen/",
    "/initialization/",
    "/api/",
    "/events/",
    "/keyboard/",
    "/presentation-state/",
    "/postmessage/",
    "/plugins/",
    "/creating-plugins/",
    "/multiplex/",
    "/react/",
    "/upgrading/"
  ]

  /** The file name a page is saved under: the root is `home.html`; any other path
      loses its outer slashes, has its inner ones turned into `_`, and gets `.html`. */
  function GetFilename(path: string): (r: string)
    ensures path == "/" ==> r == "home.html"
    ensures HasSuffix(r, ".html")
    ensures '/' !in r
  {
    if path == "/" then
      assert "home.html"[4..] == ".html" && '/' !in "home.html";
      "home.html"
    else
      var stem := Replace(Strip(path, {'/'}), '/', '_');
      assert '/' !in stem && '/' !in ".html";
      assert (stem + ".html")[|stem|..] == ".html";
      stem + ".html"
  }

  /** A path of the shape every non-root entry of `Pages` has: one slash-free,
      non-empty segment between two slashes. */
  predicate IsSectionPath(p: string) {
    |p| >= 3 && p[0] == '/' && p[|p| - 1] == '/' && '/' !in p[1..|p| - 1]
  }

  /** `"/installation/"` is saved as `"installation.html"`. */
  lemma SectionFilename(p: string)
    requires IsSectionPath(p)
    ensures GetFilename(p) == p[1..|p| - 1] + ".html"
  {
    var mid := p[1..|p| - 1];
    assert p[1..][0] == p[1];
    assert LStrip(p, {'/'}) == p[1..];
    assert p[1..][..|p| - 2] == mid;
    assert RStrip(p[1..], {'/'}) == RStrip(mid, {'/'}) == mid;
    assert Replace(mid, '/', '_') == mid;
  }

  /** Surrounding slashes do not matter: `"/a/"` and `"a"` are saved under the same name. */
  lemma OuterSlashesIgnored(x: string)
    requires x != "/"
    ensures GetFilename("/" + x + "/") == GetFilename(x)
  {
    StripOuterSlashes(x);
  }

  lemma StripOuterSlashes(x: string)
    ensures Strip("/" + x + "/", {'/'}) == Strip(x, {'/'})
  {
    var slash := {'/'};
    var p := "/" + x + "/";
    assert p[1..] == x + "/";
    assert LStrip(p, slash) == LStrip(x + "/", slash);
    var l := LStrip(x, slash);
    if l == [] {
      LStripSpec(x, slash);
      assert forall i :: 0 <= i < |x + "/"| ==> (x + "/")[i] in slash;
      StripSpec(x + "/", slash);
    } else {
      LStripAppend(x, "/", slash);
      assert (l + "/")[..|l|] == l;
      assert RStrip(l + "/", slash) == RStrip(l, slash);
    }
  }

  lemma {:induction false} LStripAppend(s: string, t: string, chars: set<char>)
    requires LStrip(s, chars) != []
    ensures LStrip(s + t, chars) == LStrip(s, chars) + t
  {
    assert (s + t)[0] == s[0];
    if s[0] in chars {
      assert (s + t)[1..] == s[1..] + t;
      LStripAppend(s[1..], t, chars);
    }
  }

  /** Two section paths saved under the same name are the same path. */
  lemma SectionFilenameInjective(p: string, q: string)
    requires IsSectionPath(p) && IsSectionPath(q)
    requires GetFilename(p) == GetFilename(q)
    ensures p == q
  {
    SectionFilename(p);
    SectionFilename(q);
    SameStem(p[1..|p| - 1], q[1..|q| - 1], ".html");
    SurroundedBySlashes(p);
    SurroundedBySlashes(q);
  }

  lemma SameStem(a: string, b: string, suffix: string)
    requires a + suffix == b + suffix
    ensures a == b
  {
    assert a == (a + suffix)[..|a|];
    assert b == (b + suffix)[..|b|];
  }

  lemma SurroundedBySlashes(p: string)
    requires IsSectionPath(p)
    ensures p == "/" + p[1..|p| - 1] + "/"
  {
  }

  /** What happened to one page, as seen by the `try` block. */
  datatype ScrapeOutcome =
    /** The fetch or the file write raised, before anything was recorded. */
    | Raised
    /** The page was fetched, written and appended to `completed`; `thenRaised` says
        whether saving the progress file (or what follows it) raised afterwards. */
    | Saved(thenRaised: bool)

  /** One iteration of the main loop on `path`. */
  function ScrapeStep(s: Lists, path: string, o: ScrapeOutcome): (r: Lists)
    ensures path in s.completed ==> r == s
    ensures s.completed <= r.completed && s.failed <= r.failed
    ensures path in r.completed || path in r.failed
    ensures path !in s.completed && o.Saved? ==> r.completed == s.completed + [path]
    ensures o.Raised? ==> r.completed == s.completed
    ensures o == Saved(false) ==> r.failed == s.failed
    ensures path in s.failed ==> r.failed == s.failed
    ensures path !in s.completed && o != Saved(false) ==> r.failed == AppendIfAbsent(s.failed, path)
    ensures forall x :: x != path ==> (x in r.completed <==> x in s.completed) && (x in r.failed <==> x in s.failed)
    ensures NoDuplicates(s.completed) ==> NoDuplicates(r.completed)
    ensures NoDuplicates(s.failed) ==> NoDuplicates(r.failed)
  {
    if path in s.completed then s
    else match o
      case Raised => Lists(s.completed, AppendIfAbsent(s.failed, path))
      case Saved(thenRaised) =>
        var completed := s.completed + [path];
        Lists(completed, if thenRaised then AppendIfAbsent(s.failed, path) else s.failed)
  }

  /** The main loop over `pages`, the i-th page meeting `outcomes[i]`. */
  function ScrapeRun(s: Lists, pages: seq<string>, outcomes: seq<ScrapeOutcome>): (r: Lists)
    requires |outcomes| == |pages|
    ensures s.completed <= r.completed && s.failed <= r.failed
  {
    if pages == [] then s
    else
      var n := |pages| - 1;
      ScrapeStep(ScrapeRun(s, pages[..n], outcomes[..n]), pages[n], outcomes[n])
  }

  /** A duplicate-free progress file stays duplicate-free, even if the work list repeats a path. */
  lemma {:induction false} ScrapeRunKeepsListsUnique(s: Lists, pages: seq<string>, outcomes: seq<ScrapeOutcome>)
    requires |outcomes| == |pages|
    requires NoDuplicates(s.completed) && NoDuplicates(s.failed)
    ensures NoDuplicates(ScrapeRun(s, pages, outcomes).completed)
    ensures NoDuplicates(ScrapeRun(s, pages, outcomes).failed)
  {
    if pages != [] {
      var n := |pages| - 1;
      ScrapeRunKeepsListsUnique(s, pages[..n], outcomes[..n]);
    }
  }

  /** The lists only grow, every page of the run ends up recorded in one of them,
      and nothing but the run's pages is added. */
  lemma {:induction false} ScrapeRunRecordsEveryPage(s: Lists, pages: seq<string>, outcomes: seq<ScrapeOutcome>)
    requires |outcomes| == |pages|
    ensures var r := ScrapeRun(s, pages, outcomes);
      s.completed <= r.completed && s.failed <= r.failed &&
      (forall p :: p in pages ==> p in r.completed || p in r.failed) &&
      (forall x :: x in r.completed ==> x in s.completed || x in pages) &&
      (forall x :: x in r.failed ==> x in s.failed || x in pages)
  {
    if pages != [] {
      var n := |pages| - 1;
      var prev := ScrapeRun(s, pages[..n], outcomes[..n]);
      ScrapeRunRecordsEveryPage(s, pages[..n], outcomes[..n]);
      var r := ScrapeStep(prev, pages[n], outcomes[n]);
      assert r == ScrapeRun(s, pages, outcomes);
      assert prev.completed <= r.completed && prev.failed <= r.failed;
      forall p | p in pages
        ensures p in r.completed || p in r.failed
      {
        if p != pages[n] {
          assert p in pages[..n];
        }
      }
      forall x | x in r.completed
        ensures x in s.completed || x in pages
      {
        if x != pages[n] {
          assert x in prev.completed;
        }
      }
      forall x | x in r.failed
        ensures x in s.failed || x in pages
      {
        if x != pages[n] {
          assert x in prev.failed;
        }
      }
    }
  }

  /** A page is added to `failed` only when something raised while it was handled. */
  lemma {:induction false} ScrapeRunFailuresRaised(s: Lists, pages: seq<string>, outcomes: seq<ScrapeOutcome>)
    requires |outcomes| == |pages|
    ensures forall x :: x in ScrapeRun(s, pages, outcomes).failed && x !in s.failed ==>
      exists i :: 0 <= i < |pages| && pages[i] == x && outcomes[i] != Saved(false)
  {
    if pages != [] {
      var n := |pages| - 1;
      var prev := ScrapeRun(s, pages[..n], outcomes[..n]);
      ScrapeRunFailuresRaised(s, pages[..n], outcomes[..n]);
      var r := ScrapeStep(prev, pages[n], outcomes[n]);
      assert r == ScrapeRun(s, pages, outcomes);
      forall x | x in r.failed && x !in s.failed
        ensures exists i :: 0 <= i < |pages| && pages[i] == x && outcomes[i] != Saved(false)
      {
        if x in prev.failed {
          var i :| 0 <= i < n && pages[..n][i] == x && outcomes[..n][i] != Saved(false);
          assert pages[i] == x && outcomes[i] != Saved(false);
        } else {
          assert pages[n] == x && outcomes[n] != Saved(false);
        }
      }
    }
  }

  /** Resuming after every page is completed changes nothing. */
  lemma {:induction false} ScrapeRunWhenAllDone(s: Lists, pages: seq<string>, outcomes: seq<ScrapeOutcome>)
    requires |outcomes| == |pages|
    requires forall p :: p in pages ==> p in s.completed
    ensures ScrapeRun(s, pages, outcomes) == s
  {
    if pages != [] {
      var n := |pages| - 1;
      assert forall p :: p in pages[..n] ==> p in pages;
      ScrapeRunWhenAllDone(s, pages[..n], outcomes[..n]);
    }
  }

  /** `main`: the loop over `Pages`, with the progress file already loaded into `progress`.
      Fetching, writing and saving are abstracted into `outcomes`. */
  method ScrapeAll(progress: Progress, outcomes: seq<ScrapeOutcome>)
    requires |outcomes| == |Pages|
    modifies progress
    ensures progress.State() == ScrapeRun(old(progress.State()), Pages, outcomes)
  {
    for i := 0 to |Pages|
      invariant progress.State() == ScrapeRun(old(progress.State()), Pages[..i], outcomes[..i])
    {
      assert Pages[..i + 1][..i] == Pages[..i] && outcomes[..i + 1][..i] == outcomes[..i];
      var path := Pages[i];
      if path in progress.completed {
        continue;
      }
      match outcomes[i]
      case Raised =>
        progress.MarkFailedIfAbsent(path);
      case Saved(thenRaised) =>
        progress.MarkCompleted(path);
        if thenRaised {
          progress.MarkFailedIfAbsent(path);
        }
    }
    assert Pages[..|Pages|] == Pages && outcomes[..|Pages|] == outcomes;
  }
}
