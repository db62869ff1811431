/** The extension classifier `is_image_or_video` (app.py, repeated verbatim in
    list_files_and_find_duplicates.py). */
module Media {
  import opened Text

  const ImageExtensions: seq<string> := ["jpg", "jpeg", "png", "gif", "bmp", "webp"]
  const VideoExtensions: seq<string> := ["mp4", "avi", "mov", "mkv", "webm"]

  /** `s.split('.')[-1]`: the text after the last '.', or all of `s` when it has no dot. */
  function Extension(s: string): (e: string)
    ensures '.' !in e
    ensures '.' !in s ==> e == s
    ensures '.' in s ==> |e| < |s| && s[|s| - |e| - 1] == '.' && e == s[|s| - |e|..]
  {
    if s == [] then []
    else if s[|s| - 1] == '.' then []
    else
      var e := Extension(s[..|s| - 1]);
      assert forall c :: c in s[..|s| - 1] ==> c in s;
      assert '.' in s[..|s| - 1] <==> '.' in s;
      e + [s[|s| - 1]]
  }

  /** `ext in image_extensions or ext in video_extensions` */
  predicate IsListedExtension(ext: string) {
    ext in ImageExtensions || ext in VideoExtensions
  }

  /** True iff the lower-cased text after the last '.' is one of the image or video extensions. */
  predicate IsImageOrVideo(filename: string) {
    IsListedExtension(Extension(Lower(filename)))
  }

  const MediaExtensions: seq<string> := ImageExtensions + VideoExtensions

  /** `s` ends in '.' followed by `e`. */
  predicate EndsWithDot(s: string, e: string) {
    |e| < |s| && s[|s| - |e| - 1] == '.' && s[|s| - |e|..] == e
  }

  lemma NoListedExtensionHasADot()
    ensures forall e :: e in MediaExtensions ==> '.' !in e
  {
  }

  /** Whatever precedes a final '.' and `e`, the extension is `e`, as long as `e` has no dot. */
  lemma {:induction false} ExtensionAfterLastDot(s: string, e: string)
    requires '.' !in e && EndsWithDot(s, e)
    ensures Extension(s) == e
    decreases |e|
  {
    if e == [] {
      assert s[|s| - 1] == '.';
    } else {
      var n := |e| - 1;
      var s' := s[..|s| - 1];
      assert s[|s| - 1] == e[n] by {
        assert s[|s| - |e|..][n] == e[n];
      }
      assert e[n] in e;
      assert EndsWithDot(s', e[..n]) by {
        assert s'[|s'| - |e[..n]| - 1] == s[|s| - |e| - 1];
        assert s'[|s'| - |e[..n]|..] == e[..n];
      }
      assert '.' !in e[..n] by {
        assert forall c :: c in e[..n] ==> c in e;
      }
      ExtensionAfterLastDot(s', e[..n]);
      assert e == e[..n] + [e[n]];
    }
  }

  /** A file is an image or a video exactly when its lower-cased name is one of
      the listed extensions or ends in '.' followed by one of them. */
  lemma MediaIffListedSuffix(filename: string)
    ensures IsImageOrVideo(filename) <==>
      exists e :: e in MediaExtensions && (Lower(filename) == e || EndsWithDot(Lower(filename), e))
  {
    var s := Lower(filename);
    var ext := Extension(s);
    assert IsImageOrVideo(filename) <==> ext in MediaExtensions;
    if ext in MediaExtensions {
      assert s == ext || EndsWithDot(s, ext);
    }
    if exists e :: e in MediaExtensions && (s == e || EndsWithDot(s, e)) {
      var e :| e in MediaExtensions && (s == e || EndsWithDot(s, e));
      NoListedExtensionHasADot();
      if EndsWithDot(s, e) {
        ExtensionAfterLastDot(s, e);
      }
    }
  }
}
