/** Truncating a message to a notification preview, first by grapheme clusters and then by runes. */
module NotificationPreview {

  const MAX_LENGTH := 100
  const MAX_RUNES := 512
  const ELLIPSIS := "\U{2026}"

  function Join(clusters: seq<string>): string {
    if clusters == [] then "" else Join(clusters[..|clusters| - 1]) + clusters[|clusters| - 1]
  }

  /** The clusters are not empty and make up the text. */
  ghost predicate IsSegmentation(text: string, clusters: seq<string>) {
    Join(clusters) == text && forall i :: 0 <= i < |clusters| ==> clusters[i] != ""
  }

  /** Unicode segmentation is a parameter; this is all that is asked of it. */
  ghost predicate Segments(segment: string -> seq<string>) {
    forall text :: IsSegmentation(text, segment(text))
  }

  // ---- What the two stages return ----

  /** The k clusters fit one rune below the limit, and no more of them do. */
  ghost predicate FitsExactly(clusters: seq<string>, k: nat) {
    k < |clusters| && |Join(clusters[..k])| <= 511 < |Join(clusters[..k + 1])|
  }

  ghost predicate IsLimited(text: string, clusters: seq<string>, r: string) {
    if |text| <= 512 then r == text
    else exists k: nat :: FitsExactly(clusters, k) && r == Join(clusters[..k]) + ELLIPSIS
  }

  /** The last blank cluster of those at 81 to 99, or 100 if none of them is blank. */
  ghost predicate IsBreakPoint(clusters: seq<string>, blank: string -> bool, b: nat) {
    && 80 < b <= 100 < |clusters|
    && (b < 100 ==> blank(clusters[b]))
    && forall i :: 80 < i < 100 && (b < i || b == 100) ==> !blank(clusters[i])
  }

  ghost predicate IsPreview(text: string, segment: string -> seq<string>, blank: string -> bool, r: string) {
    var clusters := segment(text);
    if |clusters| <= 100 then IsLimited(text, clusters, r)
    else
      exists b: nat ::
        && IsBreakPoint(clusters, blank, b)
        && var cut := Join(clusters[..b]) + ELLIPSIS; IsLimited(cut, segment(cut), r)
  }

  method LimitNotificationMessagePreviewRunes(text: string, segment: string -> seq<string>) returns (r: string)
    requires IsSegmentation(text, segment(text))
    ensures IsLimited(text, segment(text), r)
  {
    if |text| <= MAX_RUNES {
      return text;
    }
    var graphemes := segment(text);
    var clusters: seq<string> := [];
    var runeCount := 0;
    var next := 0;
    assert graphemes[..|graphemes|] == graphemes;
    while next < |graphemes|
      invariant next <= |graphemes| && clusters == graphemes[..next]
      invariant runeCount == |Join(clusters)| <= MAX_RUNES - 1
    {
      var cluster := graphemes[next];
      ghost var longer := graphemes[..next + 1];
      assert longer[..next] == clusters;
      var clusterRunes := |cluster|;
      if runeCount + clusterRunes > MAX_RUNES - 1 {
        assert FitsExactly(graphemes, next);
        break;
      }
      clusters := clusters + [cluster];
      runeCount := runeCount + clusterRunes;
      next := next + 1;
    }
    r := Join(clusters) + ELLIPSIS;
  }

  method TruncateNotificationMessagePreview(text: string, segment: string -> seq<string>, blank: string -> bool)
    returns (r: string)
    requires Segments(segment)
    ensures IsPreview(text, segment, blank, r)
    ensures |r| <= 512
    ensures if |segment(text)| <= 100 && |text| <= 512 then r == text else IsShortened(text, r)
  {
    assert IsSegmentation(text, segment(text));
    var clusters := segment(text);
    if |clusters| <= MAX_LENGTH {
      r := LimitNotificationMessagePreviewRunes(text, segment);
    } else {
      var breakPoint := MAX_LENGTH;
      var i := MAX_LENGTH - 1;
      while i > MAX_LENGTH - 20 && i > 0
        invariant MAX_LENGTH - 20 <= i < MAX_LENGTH == breakPoint
        invariant forall j :: i < j < MAX_LENGTH ==> !blank(clusters[j])
      {
        if blank(clusters[i]) {
          breakPoint := i;
          break;
        }
        i := i - 1;
      }
      var cut := Join(clusters[..breakPoint]) + ELLIPSIS;
      assert IsSegmentation(cut, segment(cut));
      r := LimitNotificationMessagePreviewRunes(cut, segment);
      assert IsBreakPoint(clusters, blank, breakPoint);
    }
    PreviewIsTextOrShortened(text, segment, blank, r);
  }

  // ---- What a reader gets ----

  /** A strict prefix of the text and one ellipsis. */
  ghost predicate IsShortened(text: string, r: string) {
    exists k: nat :: k < |text| && r == text[..k] + "\U{2026}"
  }

  lemma {:induction false} JoinIsPrefix(clusters: seq<string>, k: nat)
    requires k <= |clusters| && forall i :: 0 <= i < |clusters| ==> clusters[i] != ""
    ensures Join(clusters[..k]) <= Join(clusters)
    ensures k < |clusters| ==> |Join(clusters[..k])| < |Join(clusters)|
  {
    var n := |clusters| - 1;
    if k <= n {
      JoinIsPrefix(clusters[..n], k);
      assert clusters[..n][..k] == clusters[..k];
    } else {
      assert clusters[..k] == clusters;
    }
  }

  lemma LimitedIsShort(text: string, clusters: seq<string>, r: string)
    requires IsSegmentation(text, clusters) && IsLimited(text, clusters, r)
    ensures |r| <= 512
    ensures |text| > 512 ==> exists k: nat :: k < 512 && r == text[..k] + ELLIPSIS
  {
    if |text| > MAX_RUNES {
      var k: nat :| FitsExactly(clusters, k) && r == Join(clusters[..k]) + ELLIPSIS;
      JoinIsPrefix(clusters, k);
      assert r == text[..|Join(clusters[..k])|] + ELLIPSIS;
    }
  }

  /** Both stages together: never too long, and shortened exactly if one of the two limits is exceeded. */
  lemma PreviewIsTextOrShortened(text: string, segment: string -> seq<string>, blank: string -> bool, r: string)
    requires Segments(segment) && IsPreview(text, segment, blank, r)
    ensures |r| <= 512
    ensures if |segment(text)| <= 100 && |text| <= 512 then r == text else IsShortened(text, r)
  {
    var clusters := segment(text);
    assert IsSegmentation(text, clusters);
    if |clusters| <= MAX_LENGTH {
      LimitedIsShort(text, clusters, r);
    } else {
      var b: nat :|
        && IsBreakPoint(clusters, blank, b)
        && var cut := Join(clusters[..b]) + ELLIPSIS; IsLimited(cut, segment(cut), r);
      var kept := Join(clusters[..b]);
      var cut := kept + ELLIPSIS;
      JoinIsPrefix(clusters, b);
      assert IsSegmentation(cut, segment(cut));
      LimitedIsShort(cut, segment(cut), r);
      if |cut| > MAX_RUNES {
        var k: nat :| k < MAX_RUNES && r == cut[..k] + ELLIPSIS;
        assert cut[..k] == kept[..k] == text[..k];
      } else {
        assert kept == text[..|kept|];
      }
    }
  }

  lemma {:induction false} JoinGrows(clusters: seq<string>, k: nat, l: nat)
    requires k <= l <= |clusters|
    ensures |Join(clusters[..k])| <= |Join(clusters[..l])|
  {
    if k < l {
      JoinGrows(clusters, k, l - 1);
      assert clusters[..l][..l - 1] == clusters[..l - 1];
    }
  }

  /** The description leaves no choice: the preview of a text is unique. */
  lemma PreviewIsUnique(text: string, segment: string -> seq<string>, blank: string -> bool, r: string, q: string)
    requires IsPreview(text, segment, blank, r) && IsPreview(text, segment, blank, q)
    ensures r == q
  {
    var clusters := segment(text);
    if |clusters| <= MAX_LENGTH {
      LimitedIsUnique(text, clusters, r, q);
    } else {
      var b: nat :| IsBreakPoint(clusters, blank, b) &&
        var cut := Join(clusters[..b]) + ELLIPSIS; IsLimited(cut, segment(cut), r);
      var c: nat :| IsBreakPoint(clusters, blank, c) &&
        var cut := Join(clusters[..c]) + ELLIPSIS; IsLimited(cut, segment(cut), q);
      assert b == c;
      var cut := Join(clusters[..b]) + ELLIPSIS;
      LimitedIsUnique(cut, segment(cut), r, q);
    }
  }

  lemma LimitedIsUnique(text: string, clusters: seq<string>, r: string, q: string)
    requires IsLimited(text, clusters, r) && IsLimited(text, clusters, q)
    ensures r == q
  {
    if |text| > MAX_RUNES {
      var k: nat :| FitsExactly(clusters, k) && r == Join(clusters[..k]) + ELLIPSIS;
      var l: nat :| FitsExactly(clusters, l) && q == Join(clusters[..l]) + ELLIPSIS;
      if k < l {
        JoinGrows(clusters, k + 1, l);
      } else if l < k {
        JoinGrows(clusters, l + 1, k);
      }
    }
  }
}
