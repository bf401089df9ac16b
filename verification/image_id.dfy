/**
  The media-store object id that the post controller derives from a stored
  image URL: `url.split("/").pop().split(".")[0]`, i.e. the part of the last
  `/`-separated segment before its first `.`.

  `Split` models JavaScript's `String.prototype.split` with a one-character
  separator, `Join` its inverse `Array.prototype.join`.
 */
module ImageIds {

  /** The maximal separator-free pieces of `s`, in order. Like JavaScript's
      `split`, the result is never empty: `""` splits into `[""]`. */
  function Split(s: string, sep: char): (parts: seq<string>)
    ensures |parts| >= 1
    ensures forall i :: 0 <= i < |parts| ==> sep !in parts[i]
    decreases |s|
  {
    if |s| == 0 then [""]
    else
      var rest := Split(s[1..], sep);
      if s[0] == sep then [""] + rest
      else [[s[0]] + rest[0]] + rest[1..]
  }

  /** The pieces glued back together with the separator between each pair. */
  function Join(parts: seq<string>, sep: char): string
    requires |parts| >= 1
  {
    if |parts| == 1 then parts[0]
    else parts[0] + [sep] + Join(parts[1..], sep)
  }

  /** The element `Array.prototype.pop` returns. */
  function Last<T>(xs: seq<T>): T
    requires |xs| >= 1
  {
    xs[|xs| - 1]
  }

  /** The object id derived from a stored image URL. */
  function ImageId(url: string): (id: string)
    ensures '/' !in id && '.' !in id
  {
    var fileName := Last(Split(url, '/'));
    var id := Split(fileName, '.')[0];
    FirstPieceIsPrefix(fileName, '.');
    assert forall c :: c in id ==> c in fileName by {
      forall c | c in id ensures c in fileName {
        var k :| 0 <= k < |id| && id[k] == c;
        assert fileName[k] == c;
      }
    }
    id
  }

  /** `k` is where the last path segment of `url` starts. */
  predicate FileNameStart(url: string, k: int) {
    && 0 <= k <= |url|
    && (k == 0 || url[k - 1] == '/')
    && '/' !in url[k..]
  }

  /** `id` is the part of `name` before its first period. */
  predicate IsStem(name: string, id: string) {
    && id <= name
    && '.' !in id
    && (|id| == |name| || name[|id|] == '.')
  }

  /** Reference description of the derived id, independent of `Split`. */
  ghost predicate IsImageIdOf(url: string, id: string) {
    exists k :: FileNameStart(url, k) && IsStem(url[k..], id)
  }

  // ---------------------------------------------------------------------
  // Split and Join are inverse to each other

  lemma {:induction false} JoinSplit(s: string, sep: char)
    ensures Join(Split(s, sep), sep) == s
    decreases |s|
  {
    if |s| > 0 {
      var rest := Split(s[1..], sep);
      JoinSplit(s[1..], sep);
      assert s == [s[0]] + s[1..];
      if s[0] == sep {
        assert ([""] + rest)[1..] == rest;
      } else {
        var parts := [[s[0]] + rest[0]] + rest[1..];
        if |rest| > 1 {
          assert parts[1..] == rest[1..];
        }
      }
    }
  }

  lemma {:induction false} SplitNoSeparator(w: string, sep: char)
    requires sep !in w
    ensures Split(w, sep) == [w]
    decreases |w|
  {
    if |w| > 0 {
      SplitNoSeparator(w[1..], sep);
      assert w == [w[0]] + w[1..];
    }
  }

  lemma {:induction false} SplitAfterPiece(w: string, sep: char, t: string)
    requires sep !in w
    ensures Split(w + [sep] + t, sep) == [w] + Split(t, sep)
    decreases |w|
  {
    var s := w + [sep] + t;
    if |w| == 0 {
      assert s[1..] == t;
    } else {
      assert s[1..] == w[1..] + [sep] + t;
      SplitAfterPiece(w[1..], sep, t);
      assert w == [w[0]] + w[1..];
    }
  }

  lemma {:induction false} SplitJoin(parts: seq<string>, sep: char)
    requires |parts| >= 1
    requires forall i :: 0 <= i < |parts| ==> sep !in parts[i]
    ensures Split(Join(parts, sep), sep) == parts
    decreases |parts|
  {
    if |parts| == 1 {
      SplitNoSeparator(parts[0], sep);
    } else {
      SplitJoin(parts[1..], sep);
      SplitAfterPiece(parts[0], sep, Join(parts[1..], sep));
      assert parts == [parts[0]] + parts[1..];
    }
  }

  // ---------------------------------------------------------------------
  // Where the first and the last piece sit inside the split string

  lemma {:induction false} FirstPieceIsPrefix(s: string, sep: char)
    ensures Split(s, sep)[0] <= s
    ensures |Split(s, sep)[0]| == |s| || s[|Split(s, sep)[0]|] == sep
    decreases |s|
  {
    if |s| > 0 && s[0] != sep {
      FirstPieceIsPrefix(s[1..], sep);
    }
  }

  lemma {:induction false} JoinLast(parts: seq<string>, sep: char)
    requires |parts| >= 2
    ensures Join(parts, sep) == Join(parts[..|parts| - 1], sep) + [sep] + Last(parts)
    decreases |parts|
  {
    if |parts| > 2 {
      JoinLast(parts[1..], sep);
      assert parts[..|parts| - 1][1..] == parts[1..][..|parts| - 2];
    }
  }

  lemma LastPieceIsSuffix(s: string, sep: char)
    ensures |Last(Split(s, sep))| <= |s|
    ensures s[|s| - |Last(Split(s, sep))|..] == Last(Split(s, sep))
    ensures |Last(Split(s, sep))| == |s| || s[|s| - |Last(Split(s, sep))| - 1] == sep
  {
    var parts := Split(s, sep);
    JoinSplit(s, sep);
    if |parts| >= 2 {
      JoinLast(parts, sep);
      var front := Join(parts[..|parts| - 1], sep);
      assert s == front + [sep] + Last(parts);
      assert s[|front| + 1..] == Last(parts);
    }
  }

  // ---------------------------------------------------------------------
  // The derived id, characterised

  lemma FileNameStartUnique(url: string, k1: int, k2: int)
    requires FileNameStart(url, k1) && FileNameStart(url, k2)
    ensures k1 == k2
  {
  }

  lemma StemUnique(name: string, a: string, b: string)
    requires IsStem(name, a) && IsStem(name, b)
    ensures a == b
  {
  }

  /** `ImageId(url)` is exactly the id the reference description allows. */
  lemma ImageIdCharacterized(url: string, id: string)
    ensures IsImageIdOf(url, id) <==> id == ImageId(url)
  {
    var fileName := Last(Split(url, '/'));
    var k := |url| - |fileName|;
    LastPieceIsSuffix(url, '/');
    FirstPieceIsPrefix(fileName, '.');
    assert url[k..] == fileName;
    assert FileNameStart(url, k);
    assert IsStem(fileName, ImageId(url));
    if IsImageIdOf(url, id) {
      var k' :| FileNameStart(url, k') && IsStem(url[k'..], id);
      FileNameStartUnique(url, k, k');
      StemUnique(fileName, id, ImageId(url));
    }
  }

  /** Reads the derived id off a witness of the reference description. */
  lemma ImageIdAt(url: string, k: int, id: string)
    requires FileNameStart(url, k) && IsStem(url[k..], id)
    ensures ImageId(url) == id
  {
    ImageIdCharacterized(url, id);
  }

  /** The URL shape the media store hands back. */
  lemma ImageIdOfStoredUrl()
    ensures ImageId("https://store/abc.jpg") == "abc"
  {
    var url := "https://store/abc.jpg";
    assert url[14..] == "abc.jpg";
    ImageIdAt(url, 14, "abc");
  }

  /** Only the first period ends the id. */
  lemma ImageIdOfDoubleExtension()
    ensures ImageId("https://res.cloudinary.com/demo/v1/x1y2.tar.gz") == "x1y2"
  {
    var url := "https://res.cloudinary.com/demo/v1/x1y2.tar.gz";
    assert url[35..] == "x1y2.tar.gz";
    ImageIdAt(url, 35, "x1y2");
  }
}
