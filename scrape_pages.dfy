/** The page list saves every page to a file of its own. The facts about the
    individual literal paths are established a few pages at a time. */
module ScrapePages {
  import opened ProgressFile
  import opened ScrapeRevealjs

  /** No two pages are saved to the same file, so no saved page overwrites another. */
  lemma PagesHaveDistinctFilenames()
    ensures forall i, j :: 0 <= i < j < |Pages| ==> GetFilename(Pages[i]) != GetFilename(Pages[j])
  {
    PagesAreDistinctSections();
    forall i, j | 0 <= i < j < |Pages|
      ensures GetFilename(Pages[i]) != GetFilename(Pages[j])
    {
      if i == 0 {
        SectionNotHome(Pages[j]);
      } else if GetFilename(Pages[i]) == GetFilename(Pages[j]) {
        SectionFilenameInjective(Pages[i], Pages[j]);
      }
    }
  }

  /** A section other than `/home/` is not saved where the root page is. */
  lemma SectionNotHome(p: string)
    requires IsSectionPath(p) && p[1..|p| - 1] != "home"
    ensures GetFilename(p) != GetFilename("/")
  {
    SectionFilename(p);
    var mid := p[1..|p| - 1];
    if |mid| == 4 {
      assert (mid + ".html")[..4] == mid;
      assert "home.html"[..4] == "home";
    }
  }

  /** The root comes first; every other page is a distinct section path, none of them `/home/`. */
  lemma PagesAreDistinctSections()
    ensures NoDuplicates(Pages)
    ensures Pages[0] == "/"
    ensures forall i :: 1 <= i < |Pages| ==> IsSectionPath(Pages[i]) && Pages[i][1..|Pages[i]| - 1] != "home"
  {
    forall i | 0 <= i < |Pages|
      ensures PagePosition(Pages[i]) == i
      ensures i > 0 ==> IsSectionPath(Pages[i]) && Pages[i][1..|Pages[i]| - 1] != "home"
    {
      if 0 <= i < 5 { PositionsFrom0(i); }
      if 5 <= i < 10 { PositionsFrom5(i); }
      if 10 <= i < 15 { PositionsFrom10(i); }
      if 15 <= i < 20 { PositionsFrom15(i); }
      if 20 <= i < 25 { PositionsFrom20(i); }
      if 25 <= i < 30 { PositionsFrom25(i); }
      if 30 <= i < 35 { PositionsFrom30(i); }
      if 35 <= i < 39 { PositionsFrom35(i); }
      if 1 <= i < 3 { SectionsFrom1(i); }
      if 3 <= i < 5 { SectionsFrom3(i); }
      if 5 <= i < 7 { SectionsFrom5(i); }
      if 7 <= i < 9 { SectionsFrom7(i); }
      if 9 <= i < 11 { SectionsFrom9(i); }
      if 11 <= i < 13 { SectionsFrom11(i); }
      if 13 <= i < 15 { SectionsFrom13(i); }
      if 15 <= i < 17 { SectionsFrom15(i); }
      if 17 <= i < 19 { SectionsFrom17(i); }
      if 19 <= i < 21 { SectionsFrom19(i); }
      if 21 <= i < 23 { SectionsFrom21(i); }
      if 23 <= i < 25 { SectionsFrom23(i); }
      if 25 <= i < 27 { SectionsFrom25(i); }
      if 27 <= i < 29 { SectionsFrom27(i); }
      if 29 <= i < 31 { SectionsFrom29(i); }
      if 31 <= i < 33 { SectionsFrom31(i); }
      if 33 <= i < 35 { SectionsFrom33(i); }
      if 35 <= i < 37 { SectionsFrom35(i); }
      if 37 <= i < 39 { SectionsFrom37(i); }
    }
  }

  /** Where a path stands in `Pages`, told apart by its length and its first two
      letters after the slash (a proof device for distinctness). */
  function PagePosition(p: string): int
  {
    if |p| == 1 then 0
    else if |p| == 14 && p[1] == 'i' && p[2] == 'n' then 1
    else if |p| == 8 && p[1] == 'm' && p[2] == 'a' then 2
    else if |p| == 10 && p[1] == 'm' && p[2] == 'a' then 3
    else if |p| == 13 && p[1] == 'b' && p[2] == 'a' then 4
    else if |p| == 7 && p[1] == 'm' && p[2] == 'e' then 5
    else if |p| == 10 && p[1] == 'l' && p[2] == 'i' then 6
    else if |p| == 6 && p[1] == 'c' && p[2] == 'o' then 7
    else if |p| == 6 && p[1] == 'm' && p[2] == 'a' then 8
    else if |p| == 11 && p[1] == 'f' && p[2] == 'r' then 9
    else if |p| == 7 && p[1] == 'l' && p[2] == 'i' then 10
    else if |p| == 8 && p[1] == 'l' && p[2] == 'a' then 11
    else if |p| == 18 && p[1] == 's' && p[2] == 'l' then 12
    else if |p| == 8 && p[1] == 't' && p[2] == 'h' then 13
    else if |p| == 13 && p[1] == 't' && p[2] == 'r' then 14
    else if |p| == 8 && p[1] == 'c' && p[2] == 'o' then 15
    else if |p| == 19 && p[1] == 'p' && p[2] == 'r' then 16
    else if |p| == 17 && p[1] == 'v' && p[2] == 'e' then 17
    else if |p| == 14 && p[1] == 'a' && p[2] == 'u' then 18
    else if |p| == 12 && p[1] == 'a' && p[2] == 'u' then 19
    else if |p| == 14 && p[1] == 's' && p[2] == 'p' then 20
    else if |p| == 13 && p[1] == 's' && p[2] == 'c' then 21
    else if |p| == 15 && p[1] == 's' && p[2] == 'l' then 22
    else if |p| == 15 && p[1] == 'j' && p[2] == 'u' then 23
    else if |p| == 18 && p[1] == 't' && p[2] == 'o' then 24
    else if |p| == 12 && p[1] == 'p' && p[2] == 'd' then 25
    else if |p| == 10 && p[1] == 'o' && p[2] == 'v' then 26
    else if |p| == 12 && p[1] == 'f' && p[2] == 'u' then 27
    else if |p| == 16 && p[1] == 'i' && p[2] == 'n' then 28
    else if |p| == 5 && p[1] == 'a' && p[2] == 'p' then 29
    else if |p| == 8 && p[1] == 'e' && p[2] == 'v' then 30
    else if |p| == 10 && p[1] == 'k' && p[2] == 'e' then 31
    else if |p| == 20 && p[1] == 'p' && p[2] == 'r' then 32
    else if |p| == 13 && p[1] == 'p' && p[2] == 'o' then 33
    else if |p| == 9 && p[1] == 'p' && p[2] == 'l' then 34
    else if |p| == 18 && p[1] == 'c' && p[2] == 'r' then 35
    else if |p| == 11 && p[1] == 'm' && p[2] == 'u' then 36
    else if |p| == 7 && p[1] == 'r' && p[2] == 'e' then 37
    else if |p| == 11 && p[1] == 'u' && p[2] == 'p' then 38
    else -1
  }

  lemma SectionPathOf(m: string)
    requires m != [] && '/' !in m && m != "home"
    ensures IsSectionPath("/" + m + "/") && ("/" + m + "/")[1..|m| + 1] == m
  {
    assert ("/" + m + "/")[1..|m| + 1] == m;
  }

  lemma PositionsFrom0(i: int)
    requires 0 <= i < 5
    ensures PagePosition(Pages[i]) == i
  {
    if i == 0 {
      assert Pages[i] == "/";
    }
    else if i == 1 {
      assert Pages[i] == "/installation/";
    }
    else if i == 2 {
      assert Pages[i] == "/markup/";
    }
    else if i == 3 {
      assert Pages[i] == "/markdown/";
    }
    else if i == 4 {
      assert Pages[i] == "/backgrounds/";
    }
  }

  lemma PositionsFrom5(i: int)
    requires 5 <= i < 10
    ensures PagePosition(Pages[i]) == i
  {
    if i == 5 {
      assert Pages[i] == "/media/";
    }
    else if i == 6 {
      assert Pages[i] == "/lightbox/";
    }
    else if i == 7 {
      assert Pages[i] == "/code/";
    }
    else if i == 8 {
      assert Pages[i] == "/math/";
    }
    else if i == 9 {
      assert Pages[i] == "/fragments/";
    }
  }

  lemma PositionsFrom10(i: int)
    requires 10 <= i < 15
    ensures PagePosition(Pages[i]) == i
  {
    if i == 10 {
      assert Pages[i] == "/links/";
    }
    else if i == 11 {
      assert Pages[i] == "/layout/";
    }
    else if i == 12 {
      assert Pages[i] == "/slide-visibility/";
    }
    else if i == 13 {
      assert Pages[i] == "/themes/";
    }
    else if i == 14 {
      assert Pages[i] == "/transitions/";
    }
  }

  lemma PositionsFrom15(i: int)
    requires 15 <= i < 20
    ensures PagePosition(Pages[i]) == i
  {
    if i == 15 {
      assert Pages[i] == "/config/";
    }
    else if i == 16 {
      assert Pages[i] == "/presentation-size/";
    }
    else if i == 17 {
      assert Pages[i] == "/vertical-slides/";
    }
    else if i == 18 {
      assert Pages[i] == "/auto-animate/";
    }
    else if i == 19 {
      assert Pages[i] == "/auto-slide/";
    }
  }

  lemma PositionsFrom20(i: int)
    requires 20 <= i < 25
    ensures PagePosition(Pages[i]) == i
  {
    if i == 20 {
      assert Pages[i] == "/speaker-view/";
    }
    else if i == 21 {
      assert Pages[i] == "/scroll-view/";
    }
    else if i == 22 {
      assert Pages[i] == "/slide-numbers/";
    }
    else if i == 23 {
      assert Pages[i] == "/jump-to-slide/";
    }
    else if i == 24 {
      assert Pages[i] == "/touch-navigation/";
    }
  }

  lemma PositionsFrom25(i: int)
    requires 25 <= i < 30
    ensures PagePosition(Pages[i]) == i
  {
    if i == 25 {
      assert Pages[i] == "/pdf-export/";
    }
    else if i == 26 {
      assert Pages[i] == "/overview/";
    }
    else if i == 27 {
      assert Pages[i] == "/fullscreen/";
    }
    else if i == 28 {
      assert Pages[i] == "/initialization/";
    }
    else if i == 29 {
      assert Pages[i] == "/api/";
    }
  }

  lemma PositionsFrom30(i: int)
    requires 30 <= i < 35
    ensures PagePosition(Pages[i]) == i
  {
    if i == 30 {
      assert Pages[i] == "/events/";
    }
    else if i == 31 {
      assert Pages[i] == "/keyboard/";
    }
    else if i == 32 {
      assert Pages[i] == "/presentation-state/";
    }
    else if i == 33 {
      assert Pages[i] == "/postmessage/";
    }
    else if i == 34 {
      assert Pages[i] == "/plugins/";
    }
  }

  lemma PositionsFrom35(i: int)
    requires 35 <= i < 39
    ensures PagePosition(Pages[i]) == i
  {
    if i == 35 {
      assert Pages[i] == "/creating-plugins/";
    }
    else if i == 36 {
      assert Pages[i] == "/multiplex/";
    }
    else if i == 37 {
      assert Pages[i] == "/react/";
    }
    else if i == 38 {
      assert Pages[i] == "/upgrading/";
    }
  }

  lemma SectionsFrom1(i: int)
    requires 1 <= i < 3
    ensures IsSectionPath(Pages[i]) && Pages[i][1..|Pages[i]| - 1] != "home"
  {
    if i == 1 {
      assert Pages[i] == "/" + "installation" + "/";
      SectionPathOf("installation");
    }
    else if i == 2 {
      assert Pages[i] == "/" + "markup" + "/";
      SectionPathOf("markup");
    }
  }

  lemma SectionsFrom3(i: int)
    requires 3 <= i < 5
    ensures IsSectionPath(Pages[i]) && Pages[i][1..|Pages[i]| - 1] != "home"
  {
    if i == 3 {
      assert Pages[i] == "/" + "markdown" + "/";
      SectionPathOf("markdown");
    }
    else if i == 4 {
      assert Pages[i] == "/" + "backgrounds" + "/";
      SectionPathOf("backgrounds");
    }
  }

  lemma SectionsFrom5(i: int)
    requires 5 <= i < 7
    ensures IsSectionPath(Pages[i]) && Pages[i][1..|Pages[i]| - 1] != "home"
  {
    if i == 5 {
      assert Pages[i] == "/" + "media" + "/";
      SectionPathOf("media");
    }
    else if i == 6 {
      assert Pages[i] == "/" + "lightbox" + "/";
      SectionPathOf("lightbox");
    }
  }

  lemma SectionsFrom7(i: int)
    requires 7 <= i < 9
    ensures IsSectionPath(Pages[i]) && Pages[i][1..|Pages[i]| - 1] != "home"
  {
    if i == 7 {
      assert Pages[i] == "/" + "code" + "/";
      SectionPathOf("code");
    }
    else if i == 8 {
      assert Pages[i] == "/" + "math" + "/";
      SectionPathOf("math");
    }
  }

  lemma SectionsFrom9(i: int)
    requires 9 <= i < 11
    ensures IsSectionPath(Pages[i]) && Pages[i][1..|Pages[i]| - 1] != "home"
  {
    if i == 9 {
      assert Pages[i] == "/" + "fragments" + "/";
      SectionPathOf("fragments");
    }
    else if i == 10 {
      assert Pages[i] == "/" + "links" + "/";
      SectionPathOf("links");
    }
  }

  lemma SectionsFrom11(i: int)
    requires 11 <= i < 13
    ensures IsSectionPath(Pages[i]) && Pages[i][1..|Pages[i]| - 1] != "home"
  {
    if i == 11 {
      assert Pages[i] == "/" + "layout" + "/";
      SectionPathOf("layout");
    }
    else if i == 12 {
      assert Pages[i] == "/" + "slide-visibility" + "/";
      SectionPathOf("slide-visibility");
    }
  }

  lemma SectionsFrom13(i: int)
    requires 13 <= i < 15
    ensures IsSectionPath(Pages[i]) && Pages[i][1..|Pages[i]| - 1] != "home"
  {
    if i == 13 {
      assert Pages[i] == "/" + "themes" + "/";
      SectionPathOf("themes");
    }
    else if i == 14 {
      assert Pages[i] == "/" + "transitions" + "/";
      SectionPathOf("transitions");
    }
  }

  lemma SectionsFrom15(i: int)
    requires 15 <= i < 17
    ensures IsSectionPath(Pages[i]) && Pages[i][1..|Pages[i]| - 1] != "home"
  {
    if i == 15 {
      assert Pages[i] == "/" + "config" + "/";
      SectionPathOf("config");
    }
    else if i == 16 {
      assert Pages[i] == "/" + "presentation-size" + "/";
      SectionPathOf("presentation-size");
    }
  }

  lemma SectionsFrom17(i: int)
    requires 17 <= i < 19
    ensures IsSectionPath(Pages[i]) && Pages[i][1..|Pages[i]| - 1] != "home"
  {
    if i == 17 {
      assert Pages[i] == "/" + "vertical-slides" + "/";
      SectionPathOf("vertical-slides");
    }
    else if i == 18 {
      assert Pages[i] == "/" + "auto-animate" + "/";
      SectionPathOf("auto-animate");
    }
  }

  lemma SectionsFrom19(i: int)
    requires 19 <= i < 21
    ensures IsSectionPath(Pages[i]) && Pages[i][1..|Pages[i]| - 1] != "home"
  {
    if i == 19 {
      assert Pages[i] == "/" + "auto-slide" + "/";
      SectionPathOf("auto-slide");
    }
    else if i == 20 {
      assert Pages[i] == "/" + "speaker-view" + "/";
      SectionPathOf("speaker-view");
    }
  }

  lemma SectionsFrom21(i: int)
    requires 21 <= i < 23
    ensures IsSectionPath(Pages[i]) && Pages[i][1..|Pages[i]| - 1] != "home"
  {
    if i == 21 {
      assert Pages[i] == "/" + "scroll-view" + "/";
      SectionPathOf("scroll-view");
    }
    else if i == 22 {
      assert Pages[i] == "/" + "slide-numbers" + "/";
      SectionPathOf("slide-numbers");
    }
  }

  lemma SectionsFrom23(i: int)
    requires 23 <= i < 25
    ensures IsSectionPath(Pages[i]) && Pages[i][1..|Pages[i]| - 1] != "home"
  {
    if i == 23 {
      assert Pages[i] == "/" + "jump-to-slide" + "/";
      SectionPathOf("jump-to-slide");
    }
    else if i == 24 {
      assert Pages[i] == "/" + "touch-navigation" + "/";
      SectionPathOf("touch-navigation");
    }
  }

  lemma SectionsFrom25(i: int)
    requires 25 <= i < 27
    ensures IsSectionPath(Pages[i]) && Pages[i][1..|Pages[i]| - 1] != "home"
  {
    if i == 25 {
      assert Pages[i] == "/" + "pdf-export" + "/";
      SectionPathOf("pdf-export");
    }
    else if i == 26 {
      assert Pages[i] == "/" + "overview" + "/";
      SectionPathOf("overview");
    }
  }

  lemma SectionsFrom27(i: int)
    requires 27 <= i < 29
    ensures IsSectionPath(Pages[i]) && Pages[i][1..|Pages[i]| - 1] != "home"
  {
    if i == 27 {
      assert Pages[i] == "/" + "fullscreen" + "/";
      SectionPathOf("fullscreen");
    }
    else if i == 28 {
      assert Pages[i] == "/" + "initialization" + "/";
      SectionPathOf("initialization");
    }
  }

  lemma SectionsFrom29(i: int)
    requires 29 <= i < 31
    ensures IsSectionPath(Pages[i]) && Pages[i][1..|Pages[i]| - 1] != "home"
  {
    if i == 29 {
      assert Pages[i] == "/" + "api" + "/";
      SectionPathOf("api");
    }
    else if i == 30 {
      assert Pages[i] == "/" + "events" + "/";
      SectionPathOf("events");
    }
  }

  lemma SectionsFrom31(i: int)
    requires 31 <= i < 33
    ensures IsSectionPath(Pages[i]) && Pages[i][1..|Pages[i]| - 1] != "home"
  {
    if i == 31 {
      assert Pages[i] == "/" + "keyboard" + "/";
      SectionPathOf("keyboard");
    }
    else if i == 32 {
      assert Pages[i] == "/" + "presentation-state" + "/";
      SectionPathOf("presentation-state");
    }
  }

  lemma SectionsFrom33(i: int)
    requires 33 <= i < 35
    ensures IsSectionPath(Pages[i]) && Pages[i][1..|Pages[i]| - 1] != "home"
  {
    if i == 33 {
      assert Pages[i] == "/" + "postmessage" + "/";
      SectionPathOf("postmessage");
    }
    else if i == 34 {
      assert Pages[i] == "/" + "plugins" + "/";
      SectionPathOf("plugins");
    }
  }

  lemma SectionsFrom35(i: int)
    requires 35 <= i < 37
    ensures IsSectionPath(Pages[i]) && Pages[i][1..|Pages[i]| - 1] != "home"
  {
    if i == 35 {
      assert Pages[i] == "/" + "creating-plugins" + "/";
      SectionPathOf("creating-plugins");
    }
    else if i == 36 {
      assert Pages[i] == "/" + "multiplex" + "/";
      SectionPathOf("multiplex");
    }
  }

  lemma SectionsFrom37(i: int)
    requires 37 <= i < 39
    ensures IsSectionPath(Pages[i]) && Pages[i][1..|Pages[i]| - 1] != "home"
  {
    if i == 37 {
      assert Pages[i] == "/" + "react" + "/";
      SectionPathOf("react");
    }
    else if i == 38 {
      assert Pages[i] == "/" + "upgrading" + "/";
      SectionPathOf("upgrading");
    }
  }
}
