/** Where the app.js variant and the paginated variants answer differently
    for the same list. */
module Variants {
  import opened Js
  import opened Characters
  import GalleryApp
  import PagedApp

  /** Navigation: for "next" and "prev" both route families move to the
      same character; any other direction steps backwards in app.js while
      the paginated variants answer 400 (an unknown id is 404 in both). */
  lemma NavigationAgrees(all: seq<Character>, direction: string, currentId: string)
    ensures direction == "next" || direction == "prev" ==>
      GalleryApp.Navigate(all, direction, currentId) == PagedApp.NavigatePaged(all, direction, currentId)
    ensures direction != "next" && direction != "prev" ==>
      (GalleryApp.Navigate(all, direction, currentId) == GalleryApp.Navigate(all, "prev", currentId)
       && (PagedApp.NavigatePaged(all, direction, currentId).InvalidDirection?
           <==> !GalleryApp.Navigate(all, direction, currentId).NotFound?))
  {
    var i := IndexOfId(all, ParseInt(currentId));
    if i != -1 {
      StepsInverse(i, |all|);
    }
  }

  /** Lookup by id: app.js and pruebas/app.js compare with `parseInt`, so
      "12abc" finds character 12; backend/app.js compares `String(id)`, so
      it finds nothing. */
  lemma IdLookupDiffers(cs: seq<Character>)
    requires |cs| >= 12
    ensures var r := Renumber(cs);
      && FindByIdParam(r, "12abc") == Some(r[11])
      && PagedApp.FindByIdText(r, "12abc") == None
  {
    assert DigitPrefix("12abc", false) == "12";
    assert DigitsValue("12", 10) == 12;
    assert TrimStart("12abc") == "12abc";
    assert ParseInt("12abc") == Some(12);
    assert ParseInt("12abc") == ParseInt(NatToString(12)) by {
      ParseNatToString(12);
    }
    FindByIdParamRenumbered(cs, 12);
    PagedApp.FindByIdTextRenumbered(cs, "12abc");
    assert !IsDecimalDigit("12abc"[2]);
  }

  /** app.js keeps a Thrones and an Ice & Fire record apart whenever their
      lower-cased names differ. */
  lemma GalleryKeepsBoth(a: Character, b: Character)
    requires GalleryApp.Key(a) != GalleryApp.Key(b)
    ensures |GalleryApp.GalleryMerge([a], [b])| == 2
  {
    GalleryApp.GalleryMergeContents([a], [b]);
    var ks := GalleryApp.Keys([a]) + GalleryApp.Keys([b]);
    assert ks == [GalleryApp.Key(a), GalleryApp.Key(b)];
    assert ks[..1] == [GalleryApp.Key(a)];
    assert GalleryApp.Dedup(ks[..1]) == [GalleryApp.Key(a)] by {
      assert ks[..1][..0] == [];
    }
    assert GalleryApp.Key(b) !in ks[..1];
  }

  /** A record whose trimmed, lower-cased name a Thrones record has. */
  lemma ClashesWithThrones(a: Character, b: Character)
    requires PagedApp.MergeKey(b) == PagedApp.MergeKey(a)
    ensures forall j :: 0 <= j < |[b]| ==> PagedApp.MergeKey([b][j]) in PagedApp.ThronesNames([a])
  {
    var names := PagedApp.ThronesNames([a]);
    assert [a][0] == a && PagedApp.MergeKey(a) in names;
    forall j | 0 <= j < |[b]|
      ensures PagedApp.MergeKey([b][j]) in names
    {
      assert j == 0;
    }
  }

  /** The paginated variants keep only the Thrones record of two records
      with the same trimmed, lower-cased name. */
  lemma PagedMergesOne(a: Character, b: Character)
    requires PagedApp.MergeKey(b) == PagedApp.MergeKey(a)
    ensures PagedApp.SetMerge([a], [b]) == Renumber([a])
  {
    ClashesWithThrones(a, b);
    PagedApp.SetMergeAllClash([a], [b]);
  }

  /** The two keys of a name and the same name with a trailing blank:
      different once lower-cased, equal once also trimmed. */
  lemma TrailingBlankKeys(a: Character, b: Character)
    requires a.fullName != "" && !IsSpace(a.fullName[0])
    requires b.fullName == a.fullName + " "
    ensures GalleryApp.Key(a) != GalleryApp.Key(b)
    ensures PagedApp.MergeKey(b) == PagedApp.MergeKey(a)
  {
    ToLowerTrailingBlank(a.fullName);
    TrimTrailingBlank(ToLower(a.fullName));
  }

  /** Merge key: app.js keys its map by the lower-cased name only, the
      paginated variants also trim it; so a Thrones "Jon Snow" and an Ice &
      Fire "Jon Snow " (any name and the same name with a trailing blank)
      are two characters in app.js and one elsewhere. */
  lemma MergeKeyDiffers(a: Character, b: Character)
    requires a.fullName != "" && !IsSpace(a.fullName[0])
    requires b.fullName == a.fullName + " "
    ensures |GalleryApp.GalleryMerge([a], [b])| == 2
    ensures PagedApp.SetMerge([a], [b]) == Renumber([a])
  {
    TrailingBlankKeys(a, b);
    GalleryKeepsBoth(a, b);
    PagedMergesOne(a, b);
  }
}
