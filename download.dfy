/**
 * The /download/:id handler of main.go: choose one file of a book's directory
 * by a three-tier suffix policy whose order depends on the device mode, and
 * rename a bare ".kepub" to ".kepub.epub" for Kobo readers.
 */
module Download {
  import opened Wrappers
  import opened Text

  /** The three filename tests the resolver ranks. */
  datatype Tier =
    | KepubEpub  // lower-cased name ends in ".kepub.epub"
    | Kepub      // lower-cased name ends in ".kepub"
    | Epub       // filepath.Ext(name) == ".epub", case-sensitive

  predicate Matches(t: Tier, name: string) {
    match t
    case KepubEpub => HasSuffix(Lower(name), ".kepub.epub")
    case Kepub => HasSuffix(Lower(name), ".kepub")
    case Epub => Ext(name) == ".epub"
  }

  /** The order in which the tiers are tried: Kobo mode prefers KEPUB, standard mode EPUB. */
  function Priority(kobo: bool): seq<Tier> {
    if kobo then [KepubEpub, Kepub, Epub] else [Epub, KepubEpub, Kepub]
  }

  /** Each mode tries every tier exactly once, and only standard mode starts with ".epub". */
  lemma PriorityIsPermutation(kobo: bool)
    ensures multiset(Priority(kobo)) == multiset{KepubEpub, Kepub, Epub}
    ensures Priority(kobo)[0] == Epub <==> !kobo
  {
  }

  /** Position i holds the first name of the listing that passes tier t. */
  ghost predicate IsFirst(names: seq<string>, t: Tier, i: int) {
    0 <= i < |names| && Matches(t, names[i]) &&
    forall j :: 0 <= j < i ==> !Matches(t, names[j])
  }

  /** The first name of the listing that passes tier t (one `for … range files` loop). */
  function FirstMatch(names: seq<string>, t: Tier): (r: Option<string>)
    ensures r.Some? ==> r.value in names && Matches(t, r.value)
  {
    if names == [] then None
    else if Matches(t, names[0]) then Some(names[0])
    else FirstMatch(names[1..], t)
  }

  /** FirstMatch finds nothing exactly when no name passes the tier. */
  lemma {:induction false} FirstMatchNone(names: seq<string>, t: Tier)
    ensures FirstMatch(names, t).None? <==> forall n :: n in names ==> !Matches(t, n)
  {
    if names != [] && !Matches(t, names[0]) {
      FirstMatchNone(names[1..], t);
      assert forall n :: n in names ==> n == names[0] || n in names[1..];
    }
  }

  /** Otherwise it finds the name at the first passing position. */
  lemma {:induction false} FirstMatchSome(names: seq<string>, t: Tier, i: int)
    requires IsFirst(names, t, i)
    ensures FirstMatch(names, t) == Some(names[i])
  {
    if i > 0 {
      assert !Matches(t, names[0]);
      assert IsFirst(names[1..], t, i - 1);
      FirstMatchSome(names[1..], t, i - 1);
    }
  }

  /** Some position holds the first passing name once any listed name passes. */
  lemma {:induction false} FirstPassing(names: seq<string>, t: Tier, n: string) returns (i: int)
    requires n in names && Matches(t, n)
    ensures IsFirst(names, t, i)
    decreases |names|
  {
    if Matches(t, names[0]) {
      i := 0;
    } else {
      assert n in names[1..];
      var j := FirstPassing(names[1..], t, n);
      i := j + 1;
      assert forall k :: 1 <= k < i ==> names[k] == names[1..][k - 1];
    }
  }

  /** FirstMatch is the name at the first passing position, or None when nothing passes. */
  lemma {:induction false} FirstMatchIsFirst(names: seq<string>, t: Tier)
    ensures FirstMatch(names, t).None? <==> forall n :: n in names ==> !Matches(t, n)
    ensures forall i :: IsFirst(names, t, i) ==> FirstMatch(names, t) == Some(names[i])
    ensures FirstMatch(names, t).Some? ==>
      exists i :: IsFirst(names, t, i) && names[i] == FirstMatch(names, t).value
  {
    FirstMatchNone(names, t);
    forall i | IsFirst(names, t, i) ensures FirstMatch(names, t) == Some(names[i]) {
      FirstMatchSome(names, t, i);
    }
    if FirstMatch(names, t).Some? {
      var n :| n in names && Matches(t, n);
      var i := FirstPassing(names, t, n);
      FirstMatchSome(names, t, i);
    }
  }

  /** Try the tiers in order; the first tier that finds a name decides. */
  function FirstByPriority(names: seq<string>, tiers: seq<Tier>): (r: Option<string>)
    ensures r.Some? ==> r.value in names && exists k :: 0 <= k < |tiers| && Matches(tiers[k], r.value)
    decreases |tiers|
  {
    if tiers == [] then None
    else match FirstMatch(names, tiers[0])
      case Some(n) => Some(n)
      case None => FirstByPriority(names, tiers[1..])
  }

  /** The file the handler serves, or None for the 404 answer. */
  function Select(names: seq<string>, kobo: bool): (r: Option<string>)
    ensures r.Some? ==> r.value in names && exists k :: 0 <= k < 3 && Matches(Priority(kobo)[k], r.value)
  {
    FirstByPriority(names, Priority(kobo))
  }

  /**
   * Reference definition of the policy: n is chosen when some tier k finds it
   * first and no name passes any tier tried before k.
   */
  ghost predicate Chosen(names: seq<string>, tiers: seq<Tier>, n: string) {
    exists k, i :: 0 <= k < |tiers| && IsFirst(names, tiers[k], i) && names[i] == n &&
      forall k', m :: 0 <= k' < k && m in names ==> !Matches(tiers[k'], m)
  }

  /** No name passes any of the tiers. */
  ghost predicate NoneMatch(names: seq<string>, tiers: seq<Tier>) {
    forall k, m :: 0 <= k < |tiers| && m in names ==> !Matches(tiers[k], m)
  }

  /** When the first tier finds n0, n0 is the only chosen name. */
  lemma ChosenByHead(names: seq<string>, tiers: seq<Tier>, n0: string)
    requires tiers != [] && FirstMatch(names, tiers[0]) == Some(n0)
    ensures forall n :: Chosen(names, tiers, n) <==> n == n0
    ensures !NoneMatch(names, tiers)
  {
    FirstMatchIsFirst(names, tiers[0]);
    var i0 :| IsFirst(names, tiers[0], i0) && names[i0] == n0;
    assert Chosen(names, tiers, n0) by {
      assert 0 <= 0 < |tiers| && IsFirst(names, tiers[0], i0) && names[i0] == n0;
    }
    forall n | Chosen(names, tiers, n) ensures n == n0 {
      var k, i :| 0 <= k < |tiers| && IsFirst(names, tiers[k], i) && names[i] == n &&
        forall k', m :: 0 <= k' < k && m in names ==> !Matches(tiers[k'], m);
      assert k == 0;
    }
    assert names[i0] in names && Matches(tiers[0], names[i0]);
  }

  /** A name chosen over all tiers, when the first finds nothing, is chosen by the rest. */
  lemma ChosenDropsHead(names: seq<string>, tiers: seq<Tier>, n: string)
    requires tiers != [] && FirstMatch(names, tiers[0]) == None
    requires Chosen(names, tiers, n)
    ensures Chosen(names, tiers[1..], n)
  {
    var rest := tiers[1..];
    var k, i :| 0 <= k < |tiers| && IsFirst(names, tiers[k], i) && names[i] == n &&
      forall k', m :: 0 <= k' < k && m in names ==> !Matches(tiers[k'], m);
    if k == 0 {
      FirstMatchSome(names, tiers[0], i);
      assert false;
    }
    assert IsFirst(names, rest[k - 1], i) && names[i] == n;
    forall k', m | 0 <= k' < k - 1 && m in names ensures !Matches(rest[k'], m) {
      assert rest[k'] == tiers[k' + 1];
    }
  }

  /** A name chosen by the remaining tiers is chosen over all of them when the first finds nothing. */
  lemma ChosenAddsHead(names: seq<string>, tiers: seq<Tier>, n: string)
    requires tiers != [] && FirstMatch(names, tiers[0]) == None
    requires Chosen(names, tiers[1..], n)
    ensures Chosen(names, tiers, n)
  {
    FirstMatchNone(names, tiers[0]);
    var rest := tiers[1..];
    var k, i :| 0 <= k < |rest| && IsFirst(names, rest[k], i) && names[i] == n &&
      forall k', m :: 0 <= k' < k && m in names ==> !Matches(rest[k'], m);
    assert IsFirst(names, tiers[k + 1], i);
    forall k', m | 0 <= k' < k + 1 && m in names ensures !Matches(tiers[k'], m) {
      if k' > 0 { assert tiers[k'] == rest[k' - 1]; }
    }
  }

  /** When the first tier finds nothing, the choice is made by the remaining tiers. */
  lemma ChosenByTail(names: seq<string>, tiers: seq<Tier>)
    requires tiers != [] && FirstMatch(names, tiers[0]) == None
    ensures forall n :: Chosen(names, tiers, n) <==> Chosen(names, tiers[1..], n)
    ensures NoneMatch(names, tiers) <==> NoneMatch(names, tiers[1..])
  {
    var rest := tiers[1..];
    forall n ensures Chosen(names, tiers, n) <==> Chosen(names, rest, n) {
      if Chosen(names, tiers, n) {
        ChosenDropsHead(names, tiers, n);
      }
      if Chosen(names, rest, n) {
        ChosenAddsHead(names, tiers, n);
      }
    }
    if NoneMatch(names, rest) {
      FirstMatchNone(names, tiers[0]);
      forall k, m | 0 <= k < |tiers| && m in names ensures !Matches(tiers[k], m) {
        if k > 0 { assert tiers[k] == rest[k - 1]; }
      }
    }
  }

  lemma {:induction false} FirstByPriorityIsChosen(names: seq<string>, tiers: seq<Tier>)
    ensures FirstByPriority(names, tiers).None? <==> NoneMatch(names, tiers)
    ensures forall n :: FirstByPriority(names, tiers) == Some(n) <==> Chosen(names, tiers, n)
    decreases |tiers|
  {
    if tiers != [] {
      match FirstMatch(names, tiers[0])
      case Some(n0) =>
        ChosenByHead(names, tiers, n0);
      case None =>
        FirstByPriorityIsChosen(names, tiers[1..]);
        ChosenByTail(names, tiers);
    }
  }

  /** Three tiers tried one after the other, as the handler's three loops do. */
  lemma Cascade(names: seq<string>, a: Tier, b: Tier, c: Tier)
    ensures FirstByPriority(names, [a, b, c]) ==
      if FirstMatch(names, a).Some? then FirstMatch(names, a)
      else if FirstMatch(names, b).Some? then FirstMatch(names, b)
      else FirstMatch(names, c)
  {
    assert [a, b, c][1..] == [b, c] && [b, c][1..] == [c] && [c][1..] == [];
    assert FirstByPriority(names, [c]) == FirstMatch(names, c) by {
      assert FirstByPriority(names, []) == None;
    }
    assert FirstByPriority(names, [b, c]) ==
      if FirstMatch(names, b).Some? then FirstMatch(names, b) else FirstMatch(names, c);
  }

  /**
   * The resolver's policy: the served file is the first name found by the
   * first tier, in the mode's order, that finds any name; there is none
   * exactly when no name passes any tier.
   */
  lemma SelectIsChosen(names: seq<string>, kobo: bool)
    ensures Select(names, kobo).None? <==> NoneMatch(names, Priority(kobo))
    ensures forall n :: Select(names, kobo) == Some(n) <==> Chosen(names, Priority(kobo), n)
  {
    FirstByPriorityIsChosen(names, Priority(kobo));
  }

  /** The file name the download is offered under. */
  function Rename(name: string, kobo: bool): (r: string)
    ensures kobo && HasSuffix(Lower(name), ".kepub") ==>
      |r| == |name| + 5 && r[..|name| - 6] == name[..|name| - 6] && HasSuffix(r, ".kepub.epub")
    ensures !(kobo && HasSuffix(Lower(name), ".kepub")) ==> r == name
  {
    if kobo && HasSuffix(Lower(name), ".kepub") then name[..|name| - 6] + ".kepub.epub" else name
  }

  /** Renaming a second time changes nothing. */
  lemma RenameIdempotent(name: string, kobo: bool)
    ensures Rename(Rename(name, kobo), kobo) == Rename(name, kobo)
  {
    var r := Rename(name, kobo);
    if kobo && HasSuffix(Lower(name), ".kepub") {
      assert r[|r| - 6] == 'b';
      assert Lower(r)[|r| - 6] != '.';
    }
  }

  /** A name ending in ".epub" still ends in ".epub" once lowered. */
  lemma LowerKeepsEpub(s: string)
    requires HasSuffix(s, ".epub")
    ensures HasSuffix(Lower(s), ".epub")
  {
    var n := |s|;
    assert s[n - 5] == '.' && s[n - 4] == 'e' && s[n - 3] == 'p' && s[n - 2] == 'u' && s[n - 1] == 'b';
    assert Lower(s)[n - 5..] == ".epub";
  }

  /** In Kobo mode the served name always ends in ".epub", ignoring case. */
  lemma KoboServedNameIsEpub(names: seq<string>, n: string)
    requires Select(names, true) == Some(n)
    ensures HasSuffix(Lower(Rename(n, true)), ".epub")
  {
    var r := Rename(n, true);
    if HasSuffix(Lower(n), ".kepub") {
      LowerKeepsEpub(r);
    } else {
      var k :| 0 <= k < 3 && Matches(Priority(true)[k], n);
      EpubTierNameIsEpub(n, Priority(true)[k]);
    }
  }

  /** A name passing the ".kepub.epub" or the ".epub" tier ends in ".epub" once lower-cased. */
  lemma EpubTierNameIsEpub(n: string, t: Tier)
    requires Matches(t, n) && t != Kepub
    ensures HasSuffix(Lower(n), ".epub")
  {
    if t == KepubEpub {
      var l := Lower(n);
      assert l[|l| - 5..] == (l[|l| - 11..])[6..];
    } else {
      ExtIsSuffix(n, ".epub");
      LowerKeepsEpub(n);
    }
  }

  /** In standard mode a name ending exactly in ".kepub.epub" is already taken by the ".epub" tier. */
  lemma LowerKepubEpubIsEpub(name: string)
    requires HasSuffix(name, ".kepub.epub")
    ensures Matches(Epub, name)
  {
    ExtIsSuffix(name, ".epub");
  }

  /**
   * In standard mode the ".kepub.epub" tier only serves names whose ".epub"
   * is not all lower-case, such as "X.KEPUB.EPUB".
   */
  lemma StandardSecondTierIsMixedCase(names: seq<string>, n: string)
    requires FirstMatch(names, Epub).None? && FirstMatch(names, KepubEpub) == Some(n)
    ensures Select(names, false) == Some(n)
    ensures !Matches(Epub, n) && !HasSuffix(n, ".epub") && HasSuffix(Lower(n), ".kepub.epub")
  {
    Cascade(names, Epub, KepubEpub, Kepub);
    FirstMatchNone(names, Epub);
    ExtIsSuffix(n, ".epub");
  }

  /**
   * A directory holding a plain EPUB and a ".kepub.epub", listed in that
   * order (os.ReadDir sorts "book.epub" before "book.kepub.epub"): standard
   * mode serves the EPUB under its own name.
   */
  lemma BothFormatsStandard(epub: string, kepub: string)
    requires HasSuffix(epub, ".epub")
    ensures Select([epub, kepub], false) == Some(epub) && Rename(epub, false) == epub
  {
    var names := [epub, kepub];
    ExtIsSuffix(epub, ".epub");
    assert FirstMatch(names, Epub) == Some(epub);
    Cascade(names, Epub, KepubEpub, Kepub);
  }

  /** The same directory in Kobo mode: the ".kepub.epub" is served under its own name. */
  lemma BothFormatsKobo(epub: string, kepub: string)
    requires !HasSuffix(Lower(epub), ".kepub.epub")
    requires HasSuffix(Lower(kepub), ".kepub.epub")
    ensures Select([epub, kepub], true) == Some(kepub) && Rename(kepub, true) == kepub
  {
    var names := [epub, kepub];
    assert names[1..] == [kepub];
    assert FirstMatch(names, KepubEpub) == Some(kepub);
    Cascade(names, KepubEpub, Kepub, Epub);
    var l := Lower(kepub);
    assert l[|l| - 6] == 'b';
  }

  /**
   * A directory holding only a bare ".kepub": both modes serve it; Kobo
   * mode offers it as ".kepub.epub", standard mode under its own name.
   */
  lemma BareKepubListing(kepub: string)
    requires HasSuffix(Lower(kepub), ".kepub")
    ensures Select([kepub], false) == Some(kepub) && Rename(kepub, false) == kepub
    ensures Select([kepub], true) == Some(kepub)
    ensures Rename(kepub, true) == kepub[..|kepub| - 6] + ".kepub.epub"
  {
    var names := [kepub];
    ExtIsSuffix(kepub, ".epub");
    assert !Matches(Epub, kepub) by {
      var l := Lower(kepub);
      assert l[|l| - 5] == 'k';
    }
    assert !Matches(KepubEpub, kepub) by {
      var l := Lower(kepub);
      assert l[|l| - 5] == 'k';
    }
    assert FirstMatch(names, Kepub) == Some(kepub) by {
      assert IsFirst(names, Kepub, 0);
    }
    Cascade(names, Epub, KepubEpub, Kepub);
    Cascade(names, KepubEpub, Kepub, Epub);
  }

  /** What the handler answers. */
  datatype Response =
    | NotFound(code: int, message: string)
    | Attachment(file: string, filename: string)

  /** One `for _, f := range files` loop: the first name passing tier t, with `break`. */
  method FirstInTier(files: seq<string>, t: Tier) returns (target: Option<string>)
    ensures target == FirstMatch(files, t)
  {
    FirstMatchIsFirst(files, t);
    target := None;
    for i := 0 to |files|
      invariant target == None
      invariant forall j :: 0 <= j < i ==> !Matches(t, files[j])
    {
      if Matches(t, files[i]) {
        target := Some(files[i]);
        assert IsFirst(files, t, i);
        break;
      }
    }
  }

  /**
   * The handler: `files` is what os.ReadDir returned (empty when the
   * directory cannot be read) and `mode` the "mode" query parameter.
   */
  method HandleDownload(files: seq<string>, mode: string) returns (resp: Response)
    ensures Select(files, mode == "kepub").None? <==> resp == NotFound(404, "Fichier introuvable")
    ensures Select(files, mode == "kepub").Some? ==>
      var n := Select(files, mode == "kepub").value;
      n in files && resp == Attachment(n, Rename(n, mode == "kepub"))
  {
    var isKoboMode := mode == "kepub";
    var target: Option<string>;
    if isKoboMode {
      target := FirstInTier(files, KepubEpub);
      if target == None {
        target := FirstInTier(files, Kepub);
      }
      if target == None {
        target := FirstInTier(files, Epub);
      }
    } else {
      target := FirstInTier(files, Epub);
      if target == None {
        target := FirstInTier(files, KepubEpub);
      }
      if target == None {
        target := FirstInTier(files, Kepub);
      }
    }
    Cascade(files, Priority(isKoboMode)[0], Priority(isKoboMode)[1], Priority(isKoboMode)[2]);
    assert target == Select(files, isKoboMode);

    if target == None {
      resp := NotFound(404, "Fichier introuvable");
      return;
    }

    var filename := target.value;
    if isKoboMode {
      var lowerName := Lower(filename);
      if HasSuffix(lowerName, ".kepub") {
        filename := filename[..|filename| - 6] + ".kepub.epub";
      }
    }
    resp := Attachment(target.value, filename);
  }
}
