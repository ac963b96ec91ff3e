/** The file name `convertImageToVideo` gives the video it makes of an image:
    `imagePath.replace(".png", ".mp4")`. */
module VideoPath {
  import opened JsString

  /** The path of the video made from the image at `imagePath`. Both patterns
      are four characters long, so the path keeps its length; a path without
      ".png" anywhere is left as it is, so the video path is then the
      image path itself. */
  function VideoPath(imagePath: string): (videoPath: string)
    ensures |videoPath| == |imagePath|
    ensures (forall i :: !OccursAt(imagePath, ".png", i)) ==> videoPath == imagePath
  {
    ReplaceFirst(imagePath, ".png", ".mp4")
  }

  /** Only the leftmost ".png" becomes ".mp4"; what comes before and after it,
      later occurrences of ".png" included, is kept. */
  lemma VideoPathLeftmost(imagePath: string, i: int)
    requires OccursAt(imagePath, ".png", i)
    requires forall j :: 0 <= j < i ==> !OccursAt(imagePath, ".png", j)
    ensures VideoPath(imagePath) == imagePath[..i] + ".mp4" + imagePath[i + 4..]
    ensures OccursAt(VideoPath(imagePath), ".mp4", i)
    ensures forall j :: i + 4 <= j ==> (OccursAt(VideoPath(imagePath), ".png", j) <==> OccursAt(imagePath, ".png", j))
  {
    var v := VideoPath(imagePath);
    assert v[i..i + 4] == ".mp4";
    forall j | i + 4 <= j ensures OccursAt(v, ".png", j) <==> OccursAt(imagePath, ".png", j) {
      if j + 4 <= |imagePath| {
        assert v[j..j + 4] == imagePath[j..j + 4];
      }
    }
  }

  /** A path whose only ".png" is its suffix gets the ".mp4" extension instead. */
  lemma VideoPathOfPngFile(imagePath: string)
    requires |imagePath| >= 4 && imagePath[|imagePath| - 4..] == ".png"
    requires forall j :: 0 <= j < |imagePath| - 4 ==> !OccursAt(imagePath, ".png", j)
    ensures VideoPath(imagePath) == imagePath[..|imagePath| - 4] + ".mp4"
    ensures VideoPath(imagePath)[|imagePath| - 4..] == ".mp4"
  {
    var n := |imagePath|;
    assert OccursAt(imagePath, ".png", n - 4);
    assert imagePath[n - 4 + 4..] == [];
  }

  /** A ".png" earlier in the path than the extension is the one replaced:
      "a.png/b.png" becomes "a.mp4/b.png", which still ends in ".png". */
  lemma VideoPathOfPngDirectory()
    ensures VideoPath("a.png/b.png") == "a.mp4/b.png"
  {
    var p := "a.png/b.png";
    assert p[1..5] == ".png";
    assert !OccursAt(p, ".png", 0) by { assert p[0] != '.'; }
    assert OccursAt(p, ".png", 1);
    assert p[..1] + ".mp4" + p[5..] == "a.mp4/b.png";
  }
}
