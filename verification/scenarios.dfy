/** Concrete page loads, image variants and a gallery click, stated against the model. */
module Scenarios {
  import opened Wrappers
  import opened Catalog
  import opened Gallery
  import opened DetailPage
  import Text

  const Image: string := "a.jpg?w=400&h=400"
  const Boneka: Product := Product(TextId("1"), "Boneka A", 50000, "Boneka", "Rajutan", Image)

  /** `?id=1` against a one-record catalog shows that record, titled after it. */
  lemma BonekaDetail()
    ensures LoadProduct("Artfulito", Some("1"), Success([Boneka]))
            == RenderDetail(Fresh("Artfulito"), Boneka).(loadingShown := false)
    ensures LoadProduct("Artfulito", Some("1"), Success([Boneka])).title == "Boneka A - Artfulito"
  {
    FirstMatchWins([Boneka], "1", 0);
    var title := Boneka.name + TitleSuffix;
    forall i | 0 <= i < 20 ensures title[i] == "Boneka A - Artfulito"[i] {
    }
  }

  /** That page shows the base image with only the first thumbnail active. */
  lemma BonekaGallery()
    ensures LoadProduct("Artfulito", Some("1"), Success([Boneka])).view.Some?
    ensures LoadProduct("Artfulito", Some("1"), Success([Boneka])).view.value.mainSrc == Image
    ensures LoadProduct("Artfulito", Some("1"), Success([Boneka])).view.value.thumbs[0].active
    ensures ActiveCount(LoadProduct("Artfulito", Some("1"), Success([Boneka])).view.value.thumbs) == 1
  {
    BonekaDetail();
    ConsistentOneActive(LoadProduct("Artfulito", Some("1"), Success([Boneka])));
  }

  /** The second variant of the catalog image carries the saturation hint at its end. */
  lemma ImageSaturationVariant()
    ensures Variants(Image)[1] == "a.jpg?w=400&h=400&sat=-20"
  {
    assert Image[6..17] == SizePattern;
    forall j: nat | j < 6 ensures !Text.OccursAt(Image, SizePattern, j) {
      assert Image[j] != 'w';
      assert j + |SizePattern| <= |Image| ==> Image[j..j + |SizePattern|][0] == Image[j];
    }
    assert Text.FirstOccurrence(Image, SizePattern, 6);
    assert Image[..17] == Image && Image[17..] == "";
    var sat := Image + SaturationSuffix + "";
    forall i | 0 <= i < 25 ensures sat[i] == "a.jpg?w=400&h=400&sat=-20"[i] {
    }
  }

  /** Clicking the second thumbnail of that page shows the saturation variant and marks only that thumbnail. */
  lemma BonekaClick()
    ensures ChangeMainImage(LoadProduct("Artfulito", Some("1"), Success([Boneka])), 1).view.value.mainSrc
            == "a.jpg?w=400&h=400&sat=-20"
    ensures ActiveCount(ChangeMainImage(LoadProduct("Artfulito", Some("1"), Success([Boneka])), 1).view.value.thumbs) == 1
  {
    var pg := LoadProduct("Artfulito", Some("1"), Success([Boneka]));
    BonekaDetail();
    ImageSaturationVariant();
    ChangePreservesConsistent(pg, 1);
  }

  /** `?id=99` finds nothing; no query string and a failed fetch end the same way. */
  lemma NotFoundScenarios()
    ensures LoadProduct("Artfulito", Some("99"), Success([Boneka])) == NotFoundPage("Artfulito")
    ensures LoadProduct("Artfulito", None, Success([Boneka])) == NotFoundPage("Artfulito")
    ensures LoadProduct("Artfulito", Some("1"), Failure(NetworkError)) == NotFoundPage("Artfulito")
    ensures !NotFoundPage("Artfulito").loadingShown && NotFoundPage("Artfulito").notFoundShown
  {
    assert !ResolvesTo([Boneka], "99", 0);
  }

  /** A numeric id is found by its decimal text, and not by a zero-padded one. */
  lemma NumericIdScenario()
    ensures Resolve(Some("1"), Success([Boneka.(id := NumId(1))])) == Detail(Boneka.(id := NumId(1)))
    ensures Resolve(Some("01"), Success([Boneka.(id := NumId(1))])) == NotFound
  {
    assert IdText(NumId(1)) == Some("1");
    FirstMatchWins([Boneka.(id := NumId(1))], "1", 0);
  }

  /**
   * A record without an id makes `toString` throw: before the match it sends
   * the page to not-found, after the match `find` never reaches it.
   */
  lemma MissingRecordIdScenario()
    ensures Resolve(Some("1"), Success([Boneka.(id := NullId), Boneka])) == NotFound
    ensures Resolve(Some("1"), Success([Boneka, Boneka.(id := NullId)])) == Detail(Boneka)
  {
    FirstMatchWins([Boneka, Boneka.(id := NullId)], "1", 0);
  }

  /** The later of two records with the same id is never shown. */
  lemma DuplicateIdScenario()
    ensures Resolve(Some("1"), Success([Boneka, Boneka.(name := "Boneka B")])) == Detail(Boneka)
  {
    FirstMatchWins([Boneka, Boneka.(name := "Boneka B")], "1", 0);
  }

  /** The saturation and brightness hints go right after the size parameters. */
  lemma VariantScenario()
    ensures Variants("a.jpg?w=400&h=400&fit=crop")
            == ["a.jpg?w=400&h=400&fit=crop",
                "a.jpg?w=400&h=400&sat=-20&fit=crop",
                "a.jpg?w=400&h=400&brightness=10&fit=crop"]
    ensures Variants("a.jpg") == ["a.jpg", "a.jpg", "a.jpg"]
  {
    var s := "a.jpg?w=400&h=400&fit=crop";
    assert s[6..17] == SizePattern;
    forall j: nat | j < 6 ensures !Text.OccursAt(s, SizePattern, j) {
      assert s[j] != 'w';
      assert j + |SizePattern| <= |s| ==> s[j..j + |SizePattern|][0] == s[j];
    }
    assert Text.FirstOccurrence(s, SizePattern, 6);
    assert s[..17] == "a.jpg?w=400&h=400";
    assert s[17..] == "&fit=crop";
    assert "a.jpg?w=400&h=400" + SaturationSuffix + "&fit=crop" == "a.jpg?w=400&h=400&sat=-20&fit=crop";
    assert "a.jpg?w=400&h=400" + BrightnessSuffix + "&fit=crop" == "a.jpg?w=400&h=400&brightness=10&fit=crop";
    var t := "a.jpg";
    assert forall j: nat :: !Text.OccursAt(t, SizePattern, j);
  }
}
