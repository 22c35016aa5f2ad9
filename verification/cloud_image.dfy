/** Images uploaded with a record: the URLs kept from the upload, and the
    public id of a stored image, which names it when it is destroyed. */
module CloudImage {

  /** `s.split(c)`: the pieces between the occurrences of `c`, at least one. */
  function Split(s: string, c: char): (parts: seq<string>)
    ensures |parts| >= 1
    ensures forall i :: 0 <= i < |parts| ==> c !in parts[i]
    decreases |s|
  {
    if |s| == 0 then [""]
    else
      var rest := Split(s[1..], c);
      if s[0] == c then [""] + rest
      else [[s[0]] + rest[0]] + rest[1..]
  }

  /** `parts.join(c)`. */
  function Join(parts: seq<string>, c: char): string
    decreases |parts|
  {
    if |parts| == 0 then ""
    else if |parts| == 1 then parts[0]
    else parts[0] + [c] + Join(parts[1..], c)
  }

  /** Joining the pieces back with the separator gives the string again. */
  lemma {:induction false} JoinSplit(s: string, c: char)
    ensures Join(Split(s, c), c) == s
    decreases |s|
  {
    if |s| > 0 {
      JoinSplit(s[1..], c);
      var rest := Split(s[1..], c);
      if s[0] != c {
        if |rest| == 1 {
          assert Split(s, c) == [[s[0]] + rest[0]];
        } else {
          assert Split(s, c)[1..] == rest[1..];
          assert Join(rest, c) == rest[0] + [c] + Join(rest[1..], c);
        }
        assert s == [s[0]] + s[1..];
      } else {
        assert Split(s, c)[1..] == rest;
        assert s == [c] + s[1..];
      }
    }
  }

  /** A string without the separator is a single piece. */
  lemma {:induction false} SplitWithoutSeparator(s: string, c: char)
    requires c !in s
    ensures Split(s, c) == [s]
    decreases |s|
  {
    if |s| > 0 {
      assert c !in s[1..] by {
        forall i | 0 <= i < |s[1..]| ensures s[1..][i] != c {
          assert s[1..][i] == s[i + 1];
        }
      }
      SplitWithoutSeparator(s[1..], c);
      assert s == [s[0]] + s[1..];
    }
  }

  /** The first piece is the longest prefix without the separator. */
  lemma {:induction false} SplitFirst(s: string, c: char)
    ensures var p := Split(s, c)[0];
      && |p| <= |s| && s[..|p|] == p
      && (|p| < |s| ==> s[|p|] == c)
    decreases |s|
  {
    if |s| > 0 && s[0] != c {
      SplitFirst(s[1..], c);
    }
  }

  /** The last piece is the longest suffix without the separator. */
  lemma {:induction false} SplitLast(s: string, c: char)
    ensures var p := Split(s, c)[|Split(s, c)| - 1];
      && |p| <= |s| && s[|s| - |p|..] == p
      && (|p| < |s| ==> s[|s| - |p| - 1] == c)
      && (|Split(s, c)| > 1 ==> |p| < |s|)
    decreases |s|
  {
    if |s| > 0 {
      var t := s[1..];
      SplitLast(t, c);
      var rest := Split(t, c);
      var p := rest[|rest| - 1];
      if s[0] != c && |rest| == 1 {
        JoinSplit(t, c);
        assert p == t;
        assert Split(s, c) == [[s[0]] + t];
        assert [s[0]] + t == s;
      } else {
        LastPieceKept(s, c);
        assert s[|s| - |p|..] == t[|t| - |p|..];
        if |p| < |t| {
          assert s[|s| - |p| - 1] == t[|t| - |p| - 1];
        }
      }
    }
  }

  /** Unless the first character starts the only piece, the pieces of `s`
      end with the same piece as those of `s[1..]`, and there are more than one. */
  lemma LastPieceKept(s: string, c: char)
    requires |s| > 0
    requires s[0] == c || |Split(s[1..], c)| > 1
    ensures var rest := Split(s[1..], c);
      && Split(s, c)[|Split(s, c)| - 1] == rest[|rest| - 1]
      && |Split(s, c)| > 1
  {
  }

  /** The file name of a stored image: the part of its URL after the last `/`
      and before the first `.` of that part; it holds neither separator. */
  function FileName(url: string): (name: string)
    ensures '/' !in name && '.' !in name
    ensures |name| <= |url|
  {
    var parts := Split(url, '/');
    var seg := parts[|parts| - 1];
    SplitLast(url, '/');
    SplitFirst(seg, '.');
    assert forall i :: 0 <= i < |Split(seg, '.')[0]| ==> Split(seg, '.')[0][i] == seg[i];
    Split(seg, '.')[0]
  }

  /** `getPublicIdFromUrl(url)` for the upload folder `folder`: the folder, a
      `/`, and then the file name, in which no further `/` or `.` occurs. */
  function PublicId(folder: string, url: string): (id: string)
    ensures |id| > |folder| && id[..|folder| + 1] == folder + "/"
    ensures id[|folder| + 1..] == FileName(url)
    ensures '/' !in id[|folder| + 1..] && '.' !in id[|folder| + 1..]
  {
    var id := folder + "/" + FileName(url);
    assert id[..|folder| + 1] == folder + "/";
    assert id[|folder| + 1..] == FileName(url);
    id
  }

  /** The file name holds no `/` and no `.`; it begins the URL's last
      `/`-segment, which ends the URL; each stops at the separator that
      bounds it, so both are the longest such pieces. */
  lemma FileNameShape(url: string)
    ensures var seg := Split(url, '/')[|Split(url, '/')| - 1];
            var name := FileName(url);
      && '/' !in name && '.' !in name
      && |seg| <= |url| && url[|url| - |seg|..] == seg && '/' !in seg
      && (|seg| < |url| ==> url[|url| - |seg| - 1] == '/')
      && |name| <= |seg| && seg[..|name|] == name
      && (|name| < |seg| ==> seg[|name|] == '.')
  {
    var parts := Split(url, '/');
    var seg := parts[|parts| - 1];
    SplitLast(url, '/');
    SplitFirst(seg, '.');
    assert forall i :: 0 <= i < |seg| ==> seg[i] != '/';
    assert '/' !in FileName(url) by {
      var name := FileName(url);
      forall i | 0 <= i < |name| ensures name[i] != '/' {
        assert name[i] == seg[i];
      }
    }
  }

  /** A bare name, without `/` or `.`, is its own file name. */
  lemma PlainNamePublicId(folder: string, url: string)
    requires '/' !in url && '.' !in url
    ensures PublicId(folder, url) == folder + "/" + url
  {
    SplitWithoutSeparator(url, '/');
    SplitWithoutSeparator(url, '.');
  }

  /** An upload the storage accepted: the file's name and the URL it was
      stored under. */
  datatype Upload = Upload(originalName: string, path: string)

  /** `upload.array("images", 5)`: at most five files per request. */
  const MaxImages := 5

  /** `files.map((file) => file.path)`. */
  function ImageUrls(files: seq<Upload>): (urls: seq<string>)
    ensures |urls| == |files|
    ensures forall i :: 0 <= i < |files| ==> urls[i] == files[i].path
  {
    seq(|files|, i requires 0 <= i < |files| => files[i].path)
  }

  /** The public ids destroyed for a record's images, one per stored URL, in order. */
  function PublicIds(folder: string, urls: seq<string>): (ids: seq<string>)
    ensures |ids| == |urls|
    ensures forall i :: 0 <= i < |urls| ==> ids[i] == PublicId(folder, urls[i])
  {
    seq(|urls|, i requires 0 <= i < |urls| => PublicId(folder, urls[i]))
  }
}
