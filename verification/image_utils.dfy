/**
 * Image references: the image number inside a catalog file name, the 3x3
 * table of stand-in numbers used when no record can be chosen, and the
 * storage addresses of a rendered avatar.
 */
module ImageUtils {
  import opened Wrappers
  import opened AvatarTypes
  import opened Decimal
  import opened UriEncoding

  /** The number used whenever no better one is known. */
  const DefaultImageNumber: nat := 105

  /** The storage bucket every avatar address starts with. */
  const StorageBaseUrl: string := "https://firebasestorage.googleapis.com/v0/b/proportions-b1093.firebasestorage.app/o"

  /** The address shown when there is no image number. */
  const PlaceholderAvatar: string := "/placeholder-avatar.png"

  /* ---------- image number extraction ---------- */

  /** Index of the first digit of s, or |s| when it has none. */
  function FirstDigitIndex(s: string): (i: nat)
    ensures i <= |s|
    ensures forall k :: 0 <= k < i ==> !IsDigit(s[k])
    ensures i < |s| ==> IsDigit(s[i])
  {
    if |s| == 0 then 0
    else if IsDigit(s[0]) then 0
    else 1 + FirstDigitIndex(s[1..])
  }

  /** End of the run of digits that starts at i: the first non-digit at or after i, or |s|. */
  function DigitRunEnd(s: string, i: nat): (j: nat)
    requires i <= |s|
    ensures i <= j <= |s|
    ensures forall k :: i <= k < j ==> IsDigit(s[k])
    ensures j < |s| ==> !IsDigit(s[j])
    decreases |s| - i
  {
    if i == |s| || !IsDigit(s[i]) then i
    else DigitRunEnd(s, i + 1)
  }

  /**
   * s[i..j] is the first maximal run of digits in s: nothing before i is a
   * digit, everything in [i, j) is, and s[j] (if any) is not. What the
   * regular expression /(\d+)/ captures.
   */
  ghost predicate IsFirstDigitRun(s: string, i: int, j: int) {
    && 0 <= i < j <= |s|
    && (forall k :: 0 <= k < i ==> !IsDigit(s[k]))
    && (forall k :: i <= k < j ==> IsDigit(s[k]))
    && (j == |s| || !IsDigit(s[j]))
  }

  /**
   * extractImageNumber: 105 for the empty name or a name without digits,
   * otherwise the value of the first maximal run of digits.
   */
  function ExtractImageNumber(fileName: string): (n: nat)
    ensures (forall k :: 0 <= k < |fileName| ==> !IsDigit(fileName[k])) ==> n == DefaultImageNumber
    ensures forall i, j :: IsFirstDigitRun(fileName, i, j) ==> n == DigitsValue(fileName[i..j])
  {
    if |fileName| == 0 then DefaultImageNumber
    else
      var i := FirstDigitIndex(fileName);
      if i == |fileName| then DefaultImageNumber
      else
        var j := DigitRunEnd(fileName, i);
        FirstDigitRunUnique(fileName, i, j);
        DigitsValue(fileName[i..j])
  }

  /** The first maximal run of digits is the one the two scans find. */
  lemma FirstDigitRunUnique(s: string, i: nat, j: nat)
    requires i == FirstDigitIndex(s) < |s|
    requires j == DigitRunEnd(s, i)
    ensures IsFirstDigitRun(s, i, j)
    ensures forall i', j' :: IsFirstDigitRun(s, i', j') ==> i' == i && j' == j
  {
    forall i', j' | IsFirstDigitRun(s, i', j')
      ensures i' == i && j' == j
    {
      assert IsDigit(s[i']) && IsDigit(s[i]);
      assert j' < |s| ==> !IsDigit(s[j']);
      assert j < |s| ==> !IsDigit(s[j]);
    }
  }

  /** A name with a digit always yields the value of its first run: some run exists. */
  lemma ExtractImageNumberFindsRun(fileName: string)
    requires exists k :: 0 <= k < |fileName| && IsDigit(fileName[k])
    ensures exists i, j :: IsFirstDigitRun(fileName, i, j) && ExtractImageNumber(fileName) == DigitsValue(fileName[i..j])
  {
    var i := FirstDigitIndex(fileName);
    var j := DigitRunEnd(fileName, i);
    FirstDigitRunUnique(fileName, i, j);
  }

  /** The catalog's naming scheme, adidas_<n>. */
  function AvatarFileName(n: nat): string {
    "adidas_" + NatToString(n)
  }

  /**
   * Reading the number back out of a name built by the naming scheme gives
   * the number, whatever follows it as long as it does not start with a digit
   * (such as the ".png" extension).
   */
  lemma {:induction false} ExtractImageNumberRoundTrip(n: nat, suffix: string)
    requires |suffix| == 0 || !IsDigit(suffix[0])
    ensures ExtractImageNumber(AvatarFileName(n) + suffix) == n
  {
    var digits := NatToString(n);
    var s := AvatarFileName(n) + suffix;
    var i := 7;
    var j := 7 + |digits|;
    assert s[i..j] == digits;
    assert IsFirstDigitRun(s, i, j);
    NatToStringRoundTrip(n);
  }

  /* ---------- the stand-in table ---------- */

  /** The male table: belly shape by shoulder width code. */
  const MaleFallbackTable: map<string, map<string, nat>> := map[
    "flat" := map["1" := 101, "2" := 102, "3" := 103],
    "round" := map["1" := 104, "2" := 105, "3" := 106],
    "curvy" := map["1" := 107, "2" := 108, "3" := 109]]

  /** The female table: belly shape by hip shape. */
  const FemaleFallbackTable: map<string, map<string, nat>> := map[
    "flat" := map["slim" := 101, "regular" := 102, "full" := 103],
    "round" := map["slim" := 104, "regular" := 105, "full" := 106],
    "curvy" := map["slim" := 107, "regular" := 108, "full" := 109]]

  /**
   * getFallbackImageNumber: the table entry for (belly, second) of the
   * gender's table, or 105 when either key is not in it.
   */
  function FallbackImageNumber(bellyShape: string, secondShape: string, g: Gender): (n: nat)
    ensures 101 <= n <= 109
  {
    var table := if g == Male then MaleFallbackTable else FemaleFallbackTable;
    if bellyShape in table && secondShape in table[bellyShape] then table[bellyShape][secondShape]
    else DefaultImageNumber
  }

  /** Column of a hip shape or shoulder width in the stand-in table: its rank. */
  function SecondColumn(s: SecondShape): (c: nat)
    ensures c < 3
  {
    match s
    case Hip(h) => HipRank(h)
    case Shoulder(w) => WidthRank(w)
  }

  /** The second shapes each gender's table is keyed by. */
  predicate SecondShapeOfGender(s: SecondShape, g: Gender) {
    (g == Male && s.Shoulder?) || (g == Female && s.Hip?)
  }

  /**
   * The nine valid (belly, second) pairs of a gender get 101..109 in
   * row-major order: rows flat/round/curvy, columns slim|1, regular|2, full|3.
   */
  lemma FallbackRowMajor(b: BellyShape, s: SecondShape, g: Gender)
    requires SecondShapeOfGender(s, g)
    ensures FallbackImageNumber(BellyName(b), SecondName(s), g) == 101 + 3 * BellyRank(b) + SecondColumn(s)
  {
  }

  /** A second shape that does not belong to the gender's table gives 105. */
  lemma FallbackOtherGenderKey(b: BellyShape, s: SecondShape, g: Gender)
    requires !SecondShapeOfGender(s, g)
    ensures FallbackImageNumber(BellyName(b), SecondName(s), g) == DefaultImageNumber
  {
  }

  /** An unrecognised belly shape gives 105. */
  lemma FallbackUnknownBelly(belly: string, second: string, g: Gender)
    requires belly !in {"flat", "round", "curvy"}
    ensures FallbackImageNumber(belly, second, g) == DefaultImageNumber
  {
  }

  /** The two tables agree when the widths '1', '2', '3' are read as slim, regular, full. */
  lemma FallbackTablesAgree(b: BellyShape, w: Width)
    ensures FallbackImageNumber(BellyName(b), WidthName(w), Male)
         == FallbackImageNumber(BellyName(b), HipName(WidthAsHip(w)), Female)
  {
  }

  /** Distinct valid pairs of a gender get distinct stand-in numbers. */
  lemma FallbackInjective(b1: BellyShape, s1: SecondShape, b2: BellyShape, s2: SecondShape, g: Gender)
    requires SecondShapeOfGender(s1, g) && SecondShapeOfGender(s2, g)
    requires FallbackImageNumber(BellyName(b1), SecondName(s1), g) == FallbackImageNumber(BellyName(b2), SecondName(s2), g)
    ensures b1 == b2 && s1 == s2
  {
    FallbackRowMajor(b1, s1, g);
    FallbackRowMajor(b2, s2, g);
  }

  /* ---------- storage addresses ---------- */

  /** The gender folder of the storage layout: Women for female, Men otherwise. */
  function GenderFolder(g: Gender): string {
    if g == Female then "Women" else "Men"
  }

  /** The storage path {Women|Men}/{view}/{size}/adidas_{n}.png, before encoding. */
  function StoragePath(n: nat, size: string, g: Gender, view: View): string {
    GenderFolder(g) + "/" + ViewName(view) + "/" + size + "/" + AvatarFileName(n) + ".png"
  }

  /**
   * getAvatarPath: the placeholder without an image number, otherwise the
   * bucket URL, a slash, the encoded storage path and ?alt=media.
   */
  function AvatarPath(imageNumber: Option<nat>, size: string, g: Gender, view: View): (url: string)
    ensures imageNumber.None? ==> url == PlaceholderAvatar
    ensures imageNumber.Some? ==> exists segment :: (url == StorageBaseUrl + "/" + segment + "?alt=media"
      && '/' !in segment && '?' !in segment)
  {
    match imageNumber
    case None => PlaceholderAvatar
    case Some(n) =>
      var segment := EncodeUriComponent(StoragePath(n, size, g, view));
      EncodedIsOneSegment(StoragePath(n, size, g, view));
      StorageBaseUrl + "/" + segment + "?alt=media"
  }

  /**
   * getAvatarViews: the placeholder alone without an image number, otherwise
   * one address per available view, in view order.
   */
  function AvatarViews(imageNumber: Option<nat>, size: string, g: Gender): (urls: seq<string>)
    ensures imageNumber.None? ==> urls == [PlaceholderAvatar]
    ensures imageNumber.Some? ==> |urls| == |AvailableViews|
    ensures imageNumber.Some? ==>
      forall i :: 0 <= i < |urls| ==> urls[i] == AvatarPath(imageNumber, size, g, AvailableViews[i])
  {
    match imageNumber
    case None => [PlaceholderAvatar]
    case Some(_) => seq(|AvailableViews|, i requires 0 <= i < |AvailableViews| => AvatarPath(imageNumber, size, g, AvailableViews[i]))
  }

  /** Every character of the text is left alone by the encoder. */
  predicate AllUnreserved(s: string) {
    forall k :: 0 <= k < |s| ==> Unreserved(s[k])
  }

  /**
   * The address of an avatar image, read back: when the size label needs
   * no escaping the only escapes are the three %2F separators, so the
   * address spells out folder, view, size and file name between them.
   */
  lemma AvatarPathLayout(n: nat, size: string, g: Gender, view: View)
    requires AllUnreserved(size)
    ensures AvatarPath(Some(n), size, g, view)
      == StorageBaseUrl + "/" + (GenderFolder(g) + "%2F" + ViewName(view) + "%2F" + size + "%2F" + AvatarFileName(n) + ".png") + "?alt=media"
  {
    EncodedStoragePath(n, size, g, view);
  }

  /** The encoded storage path: the three separators escaped, nothing else changed. */
  lemma EncodedStoragePath(n: nat, size: string, g: Gender, view: View)
    requires AllUnreserved(size)
    ensures EncodeUriComponent(StoragePath(n, size, g, view))
      == GenderFolder(g) + "%2F" + ViewName(view) + "%2F" + size + "%2F" + AvatarFileName(n) + ".png"
  {
    var folder, v, file := GenderFolder(g), ViewName(view), AvatarFileName(n) + ".png";
    FolderAndViewUnreserved(g, view);
    ImageFileUnreserved(n);
    var a := folder + "/" + v;
    var b := a + "/" + size;
    assert StoragePath(n, size, g, view) == b + "/" + file;
    EncodeSeparated(folder, v);
    assert EncodeUriComponent(a) == folder + "%2F" + v;
    EncodeSeparated(a, size);
    assert EncodeUriComponent(b) == folder + "%2F" + v + "%2F" + size;
    EncodeSeparated(b, file);
  }

  /** The folder and view names are plain letters. */
  lemma FolderAndViewUnreserved(g: Gender, view: View)
    ensures AllUnreserved(GenderFolder(g)) && AllUnreserved(ViewName(view))
  {
  }

  /** The image file name adidas_<n>.png needs no escaping. */
  lemma ImageFileUnreserved(n: nat)
    ensures AllUnreserved(AvatarFileName(n) + ".png")
  {
    var digits := NatToString(n);
    var file := AvatarFileName(n) + ".png";
    assert file == "adidas_" + digits + ".png";
    forall k | 0 <= k < |file|
      ensures Unreserved(file[k])
    {
      if 7 <= k < 7 + |digits| {
        assert file[k] == digits[k - 7];
        assert IsDigit(digits[k - 7]);
      }
    }
  }
}
