/** The string rules of main.go: the model URL and file name
    (URLForModel, Download's output path), the YouTube ID that youtubeDL
    derives from a link, and the audio file names of youtubeDL, saveWav and
    the empty-decode retry in transcribe. Paths use '/' as the separator. */
module Names {

  const SrcUrl: string := "https://huggingface.co/ggerganov/whisper.cpp/resolve/main"
  const SrcExt: string := ".bin"
  const DataDir: string := "/data"
  const Marker: string := "_corrupted"

  predicate IsSuffix(p: string, s: string) {
    |p| <= |s| && s[|s| - |p|..] == p
  }

  lemma SuffixTransitive(a: string, b: string, c: string)
    requires IsSuffix(a, b) && IsSuffix(b, c)
    ensures IsSuffix(a, c)
  {
    assert c[|c| - |a|..] == c[|c| - |b|..][|b| - |a|..];
  }

  // ---------------------------------------------------------------- paths

  /** filepath.Ext: the final element's suffix from its last '.', or "" when
      the final element has no '.'. */
  function Ext(path: string): (e: string)
    ensures IsSuffix(e, path)
    ensures e != "" ==> e[0] == '.' && '/' !in e && '.' !in e[1..]
    ensures e == "" ==> forall i :: 0 <= i < |path| && path[i] == '.' ==> '/' in path[i + 1..]
  {
    if path == [] || path[|path| - 1] == '/' then ""
    else if path[|path| - 1] == '.' then "."
    else
      var init, c := path[..|path| - 1], path[|path| - 1];
      assert path == init + [c];
      var e := Ext(init);
      if e == "" then
        NoExtGrows(init, c);
        ""
      else
        ExtGrows(init, c, e);
        e + [c]
  }

  /** Appending a character other than '.' keeps every '.' followed by a '/'. */
  lemma NoExtGrows(init: string, c: char)
    requires c != '.'
    requires forall i :: 0 <= i < |init| && init[i] == '.' ==> '/' in init[i + 1..]
    ensures forall i :: 0 <= i < |init + [c]| && (init + [c])[i] == '.' ==> '/' in (init + [c])[i + 1..]
  {
    forall i | 0 <= i < |init + [c]| && (init + [c])[i] == '.'
      ensures '/' in (init + [c])[i + 1..]
    {
      assert (init + [c])[i + 1..] == init[i + 1..] + [c];
    }
  }

  /** Appending a character other than '.' and '/' extends the extension. */
  lemma ExtGrows(init: string, c: char, e: string)
    requires c != '.' && c != '/'
    requires IsSuffix(e, init) && e != ""
    requires e[0] == '.' && '/' !in e && '.' !in e[1..]
    ensures IsSuffix(e + [c], init + [c])
    ensures (e + [c])[0] == '.' && '/' !in e + [c] && '.' !in (e + [c])[1..]
  {
    assert (init + [c])[|init| - |e|..] == init[|init| - |e|..] + [c];
    assert (e + [c])[1..] == e[1..] + [c];
  }

  /** The extension of `<a>.<b>` is `.<b>` when b has neither '.' nor '/'. */
  lemma {:induction false} ExtAfterDot(a: string, b: string)
    requires '.' !in b && '/' !in b
    ensures Ext(a + "." + b) == "." + b
  {
    if b != [] {
      var b' := b[..|b| - 1];
      ExtAfterDot(a, b');
      assert (a + "." + b)[..|a + "." + b| - 1] == a + "." + b';
      assert "." + b' + [b[|b| - 1]] == "." + b;
    }
  }

  /** The last piece of s when split at sep: what strings.Split(s, sep)
      returns last, which is all of s when sep does not occur. */
  function LastPiece(s: string, sep: char): (p: string)
    ensures IsSuffix(p, s) && sep !in p
    ensures |p| < |s| ==> s[|s| - |p| - 1] == sep
  {
    if s == [] || s[|s| - 1] == sep then ""
    else
      var init, c := s[..|s| - 1], s[|s| - 1];
      assert s == init + [c];
      var p := LastPiece(init, sep);
      PieceGrows(init, c, p, sep);
      p + [c]
  }

  /** Appending a character other than sep extends the last piece. */
  lemma PieceGrows(init: string, c: char, p: string, sep: char)
    requires c != sep
    requires IsSuffix(p, init) && sep !in p
    requires |p| < |init| ==> init[|init| - |p| - 1] == sep
    ensures IsSuffix(p + [c], init + [c]) && sep !in p + [c]
    ensures |p| < |init| ==> (init + [c])[|init| - |p| - 1] == sep
  {
    assert (init + [c])[|init| - |p|..] == init[|init| - |p|..] + [c];
  }

  /** A string without sep is its own last piece. */
  lemma {:induction false} LastPieceWhole(s: string, sep: char)
    requires sep !in s
    ensures LastPiece(s, sep) == s
  {
    if s != [] {
      LastPieceWhole(s[..|s| - 1], sep);
      assert s == s[..|s| - 1] + [s[|s| - 1]];
    }
  }

  /** Whatever precedes the last separator does not matter. */
  lemma {:induction false} LastPieceAfter(a: string, sep: char, b: string)
    requires sep !in b
    ensures LastPiece(a + [sep] + b, sep) == b
  {
    var s := a + [sep] + b;
    if b != [] {
      var b' := b[..|b| - 1];
      assert s[..|s| - 1] == a + [sep] + b';
      LastPieceAfter(a, sep, b');
      assert b == b' + [b[|b| - 1]];
    }
  }

  /** filepath.Base: the last element after trailing separators are dropped;
      "." for the empty path and "/" for a path of separators only. */
  function Base(path: string): (b: string)
    ensures b != [] && (b == "/" || '/' !in b)
    ensures path == [] ==> b == "."
    ensures path != [] ==> (b == "/" <==> forall i :: 0 <= i < |path| ==> path[i] == '/')
    ensures path != [] && path[|path| - 1] != '/' ==> b == LastPiece(path, '/')
  {
    if path == [] then "."
    else
      var trimmed := TrimTrailing(path, '/');
      if trimmed == [] then "/"
      else
        assert trimmed[|trimmed| - 1] == path[|trimmed| - 1] != '/';
        LastPiece(trimmed, '/')
  }

  function TrimTrailing(s: string, c: char): (t: string)
    ensures |t| <= |s| && t == s[..|t|]
    ensures t == [] || t[|t| - 1] != c
    ensures s != [] && s[|s| - 1] != c ==> t == s
    ensures forall i :: |t| <= i < |s| ==> s[i] == c
  {
    if s != [] && s[|s| - 1] == c then TrimTrailing(s[..|s| - 1], c) else s
  }

  /** filepath.Join of two elements, empty elements ignored; the lexical
      Clean step of the library is not part of this model. */
  function Join(dir: string, name: string): (j: string)
    ensures |dir| <= |j| && j[..|dir|] == dir && IsSuffix(name, j)
    ensures dir != "" && name != "" ==> |j| == |dir| + 1 + |name| && j[|dir|] == '/'
    ensures dir == "" || name == "" ==> |j| == |dir| + |name|
  {
    if dir == "" then name else if name == "" then dir else dir + "/" + name
  }

  /** Joining a single element onto a directory and taking the base gives
      the element back. */
  lemma BaseOfJoin(dir: string, name: string)
    requires name != [] && '/' !in name
    ensures Base(Join(dir, name)) == name
  {
    var j := Join(dir, name);
    assert j[|j| - 1] == name[|name| - 1];
    if dir == "" {
      LastPieceWhole(name, '/');
    } else {
      assert j == dir + ['/'] + name;
      LastPieceAfter(dir, '/', name);
    }
  }

  // ---------------------------------------------------------------- models

  /** The model file name URLForModel resolves: `.bin` is appended unless the
      name already has that extension. */
  function ModelFile(model: string): (f: string)
    ensures Ext(model) == SrcExt ==> f == model
    ensures Ext(model) != SrcExt ==> f == model + SrcExt
    ensures Ext(f) == SrcExt && IsSuffix(SrcExt, f)
  {
    if Ext(model) != SrcExt then
      ExtOfBin(model);
      model + SrcExt
    else model
  }

  lemma ExtOfBin(m: string)
    ensures Ext(m + SrcExt) == SrcExt
  {
    assert Ext(m + ".") == ".";
    assert (m + ".b")[..|m| + 1] == m + ".";
    assert Ext(m + ".b") == ".b";
    assert (m + ".bi")[..|m| + 2] == m + ".b";
    assert Ext(m + ".bi") == ".bi";
    assert (m + ".bin")[..|m| + 3] == m + ".bi";
  }

  /** Normalising a model name twice is normalising it once. */
  lemma ModelFileIdempotent(model: string)
    ensures ModelFile(ModelFile(model)) == ModelFile(model)
  {
  }

  /** URLForModel: the model file under the fixed download location. The
      base URL is a constant that url.Parse accepts, so the error branch
      cannot be taken. */
  function URLForModel(model: string): (u: string)
    ensures |SrcUrl| + 1 <= |u| && u[..|SrcUrl| + 1] == SrcUrl + "/"
    ensures IsSuffix(ModelFile(model), u) && IsSuffix(SrcExt, u)
  {
    var u := SrcUrl + "/" + ModelFile(model);
    assert u[..|SrcUrl| + 1] == SrcUrl + "/";
    assert IsSuffix(ModelFile(model), u);
    SuffixTransitive(SrcExt, ModelFile(model), u);
    u
  }

  /** The URL of a model `<a>.<b>` whose extension is not `.bin`. */
  lemma DottedModelURL(a: string, b: string, f: string, tail: string)
    requires '.' !in b && '/' !in b && "." + b != SrcExt
    requires f == a + "." + b + SrcExt && tail == "/" + f
    ensures URLForModel(a + "." + b) == SrcUrl + tail
  {
    ExtAfterDot(a, b);
    assert SrcUrl + "/" + f == SrcUrl + ("/" + f);
  }

  /** The file Download stores a model in, for the URL it fetched from: in
      the output directory, named as the last element of the URL. */
  function ModelPath(out: string, url: string): (p: string)
    ensures out != "" ==> |out| < |p| && p[..|out|] == out && p[|out|] == '/'
    ensures Base(url) != "/" ==> Base(p) == Base(url)
  {
    var b := Base(url);
    if b == "/" then Join(out, b)
    else BaseOfJoin(out, b); Join(out, b)
  }

  /** For a plain model name (no '/'), Download saves the model under the
      file name URLForModel appended the extension to. */
  lemma ModelPathOfURL(out: string, model: string)
    requires '/' !in model
    ensures Base(URLForModel(model)) == ModelFile(model)
    ensures ModelPath(out, URLForModel(model)) == Join(out, ModelFile(model))
  {
    var f := ModelFile(model);
    assert '/' !in f by {
      assert f == model || f == model + SrcExt;
    }
    var u := URLForModel(model);
    assert u == SrcUrl + ['/'] + f;
    assert u[|u| - 1] == 'n';
    LastPieceAfter(SrcUrl, '/', f);
  }

  // --------------------------------------------------------------- YouTube

  /** youtubeDL's ID: the last '='-piece of the last '/'-piece of the link. */
  function YoutubeId(link: string): (id: string)
    ensures IsSuffix(id, link)
    ensures '/' !in id && '=' !in id
    ensures |id| < |link| ==> link[|link| - |id| - 1] == '/' || link[|link| - |id| - 1] == '='
  {
    var watch := LastPiece(link, '/');
    var id := LastPiece(watch, '=');
    PieceOfPiece(link, watch, id);
    id
  }

  /** The last '='-piece of the last '/'-piece is a suffix of the link,
      preceded by one of the two separators unless it is all of it. */
  lemma PieceOfPiece(link: string, watch: string, id: string)
    requires IsSuffix(watch, link) && (|watch| < |link| ==> link[|link| - |watch| - 1] == '/')
    requires IsSuffix(id, watch) && (|id| < |watch| ==> watch[|watch| - |id| - 1] == '=')
    ensures IsSuffix(id, link)
    ensures |id| < |link| ==> link[|link| - |id| - 1] == '/' || link[|link| - |id| - 1] == '='
  {
    SuffixTransitive(id, watch, link);
    if |id| < |watch| {
      assert link[|link| - |id| - 1] == link[|link| - |watch|..][|watch| - |id| - 1];
    }
  }

  /** Deriving the ID from an ID gives the same ID. */
  lemma YoutubeIdIdempotent(link: string)
    ensures YoutubeId(YoutubeId(link)) == YoutubeId(link)
  {
    var id := YoutubeId(link);
    LastPieceWhole(id, '/');
    LastPieceWhole(id, '=');
  }

  /** For a link `<site>/<query>=<id>` whose query has no '/' and whose id
      has neither '/' nor '=', the ID is id; transcribe notes the shape
      `watch?v=QRZ_l7cVzzU`. */
  lemma YoutubeIdOfWatchLink(site: string, query: string, id: string)
    requires '/' !in query && '/' !in id && '=' !in id
    ensures YoutubeId(site + "/" + query + "=" + id) == id
  {
    var watch := query + "=" + id;
    assert site + "/" + query + "=" + id == site + ['/'] + watch;
    LastPieceAfter(site, '/', watch);
    assert watch == query + ['='] + id;
    LastPieceAfter(query, '=', id);
  }

  // ------------------------------------------------------------ wav names

  /** The cached audio file youtubeDL looks for. */
  function CachedName(id: string): (n: string)
    ensures |n| == |id| + 4 && n[..|id|] == id && IsSuffix(".wav", n)
  {
    id + ".wav"
  }

  /** The file saveWav writes a fresh download to: the cached name with the
      marker between the ID and the extension. */
  function FreshName(id: string): (n: string)
    ensures |n| == |id| + |Marker| + 4 && n[..|id|] == id && IsSuffix(".wav", n)
    ensures n[|id|..|id| + |Marker|] == Marker
  {
    id + Marker + ".wav"
  }

  /** The path under the audio data directory (`/data/<name>`). */
  function DataPath(name: string): (p: string)
    ensures |p| == |DataDir| + 1 + |name| && p[..|DataDir| + 1] == DataDir + "/"
    ensures IsSuffix(name, p)
  {
    DataDir + "/" + name
  }

  /** Distinct names are distinct files under the data directory. */
  lemma DataPathInjective(a: string, b: string)
    ensures DataPath(a) == DataPath(b) <==> a == b
  {
    if DataPath(a) == DataPath(b) {
      assert a == DataPath(a)[|DataDir| + 1..];
      assert b == DataPath(b)[|DataDir| + 1..];
    }
  }

  predicate OccursAt(s: string, pat: string, i: int) {
    0 <= i && i + |pat| <= |s| && s[i..i + |pat|] == pat
  }

  /** strings.Index: the first position where pat occurs in s, or -1. */
  function Index(s: string, pat: string): (i: int)
    ensures i == -1 <==> forall j :: !OccursAt(s, pat, j)
    ensures i != -1 ==> OccursAt(s, pat, i) && forall j :: 0 <= j < i ==> !OccursAt(s, pat, j)
  {
    if |s| < |pat| then -1
    else if s[..|pat|] == pat then
      assert OccursAt(s, pat, 0);
      0
    else
      var k := Index(s[1..], pat);
      assert forall j :: OccursAt(s[1..], pat, j) <==> OccursAt(s, pat, j + 1) by {
        forall j ensures OccursAt(s[1..], pat, j) <==> OccursAt(s, pat, j + 1) {
          if 0 <= j && j + |pat| <= |s| - 1 {
            assert s[1..][j..j + |pat|] == s[j + 1..j + 1 + |pat|];
          }
        }
      }
      assert !OccursAt(s, pat, 0);
      assert forall j :: OccursAt(s, pat, j) ==> j == 0 || OccursAt(s[1..], pat, j - 1);
      if k == -1 then -1 else k + 1
  }

  /** strings.Replace(s, pat, "", 1): s without the first occurrence of pat. */
  function RemoveFirst(s: string, pat: string): (r: string)
    ensures Index(s, pat) == -1 ==> r == s
    ensures Index(s, pat) != -1 ==>
              |r| + |pat| == |s| && s == r[..Index(s, pat)] + pat + r[Index(s, pat)..]
  {
    var i := Index(s, pat);
    if i == -1 then s
    else
      var r := s[..i] + s[i + |pat|..];
      assert r[..i] == s[..i] && r[i..] == s[i + |pat|..];
      assert s == s[..i] + s[i..i + |pat|] + s[i + |pat|..];
      r
  }

  /** The name the empty-decode retry converts into: the first `_corrupted`
      taken out of the audio file name. */
  function StripMarker(name: string): (r: string)
    ensures !HasMarker(name) ==> r == name
    ensures HasMarker(name) ==> |r| + |Marker| == |name|
  {
    RemoveFirst(name, Marker)
  }

  predicate HasMarker(s: string) {
    Index(s, Marker) != -1
  }

  /** An ID that itself begins with the marker loses that one instead: the
      retry then converts into a file that is not the ID's cached name. */
  lemma StripMarkedId(rest: string)
    ensures StripMarker(FreshName(Marker + rest)) == rest + Marker + ".wav"
    ensures rest != "" && rest[0] != '_' ==> StripMarker(FreshName(Marker + rest)) != CachedName(Marker + rest)
  {
    var s := FreshName(Marker + rest);
    assert s[..|Marker|] == Marker;
    assert OccursAt(s, Marker, 0);
    assert Index(s, Marker) == 0;
    assert s[|Marker|..] == rest + Marker + ".wav";
    if rest != "" && rest[0] != '_' {
      assert (rest + Marker + ".wav")[0] != CachedName(Marker + rest)[0];
    }
  }

  /** A fresh download strips to the cached name of the same ID. */
  lemma StripFresh(id: string)
    requires !HasMarker(id)
    ensures StripMarker(FreshName(id)) == CachedName(id)
  {
    var s := FreshName(id);
    var n := |id|;
    assert s[n..n + |Marker|] == Marker;
    forall j | 0 <= j < n ensures !OccursAt(s, Marker, j) {
      if j + |Marker| <= n {
        assert s[j..j + |Marker|] == id[j..j + |Marker|];
        assert !OccursAt(id, Marker, j);
      } else if j + |Marker| <= |s| {
        assert s[j..j + |Marker|][n - j] == s[n] == '_';
        assert Marker[n - j] != '_';
      }
    }
    assert OccursAt(s, Marker, n);
    var i := Index(s, Marker);
    assert i != -1;
    assert i == n;
    assert s[..n] + s[n + |Marker|..] == id + ".wav";
  }

  /** A cached name has nothing to strip. */
  lemma StripCached(id: string)
    requires !HasMarker(id)
    ensures StripMarker(CachedName(id)) == CachedName(id)
  {
    forall j ensures !OccursAt(id + ".wav", Marker, j) {
      MarkerNotInWav(id, j);
    }
    assert CachedName(id) == id + ".wav";
  }

  lemma MarkerNotInWav(id: string, j: int)
    requires !HasMarker(id)
    ensures !OccursAt(id + ".wav", Marker, j)
  {
    var s := id + ".wav";
    var n := |id|;
    if 0 <= j && j + |Marker| <= n {
      assert s[j..j + |Marker|] == id[j..j + |Marker|];
      assert !OccursAt(id, Marker, j);
    } else if 0 <= j && j + |Marker| <= |s| {
      assert s[j..j + |Marker|][n - j] == s[n] == '.';
      assert Marker[n - j] != '.';
    }
  }
}
