/**
 * Path resolution and content-type selection in `handle_client`: `/` is
 * served as `/index.html`, every leading `/` is stripped, the rest is
 * joined under the web root `www`, and the type comes from an ordered
 * suffix test on the joined path. Nothing guards against `..` segments.
 */
module PathResolver {
  import opened Strings

  const WebRoot := "www"
  const IndexPath := "/index.html"

  /** `if path == '/': path = '/index.html'`; every other path is kept. */
  function SubstituteRoot(path: string): string
  {
    if path == "/" then IndexPath else path
  }

  lemma SubstitutedPathHasNoSpace(path: string)
    requires ' ' !in path
    ensures ' ' !in SubstituteRoot(path)
  {
    assert ' ' !in IndexPath;
  }

  /** `os.path.join(a, b)` for two components under POSIX rules. */
  function PathJoin(a: string, b: string): string
  {
    if |b| > 0 && b[0] == '/' then b
    else if a == "" || a[|a| - 1] == '/' then a + b
    else a + "/" + b
  }

  /**
   * `os.path.join(WEB_ROOT, path.lstrip('/'))`: since the stripped path
   * never starts with `/`, the join always keeps the web root and puts
   * exactly one separator after it.
   */
  function ResolvePath(path: string): (r: string)
    ensures r == WebRoot + "/" + LStrip(path, '/')
  {
    PathJoin(WebRoot, LStrip(path, '/'))
  }

  /** Any number of leading slashes gives the same file. */
  lemma {:induction false} LeadingSlashesIgnored(slashes: nat, path: string)
    ensures ResolvePath(seq(slashes, _ => '/') + path) == ResolvePath(path)
  {
    if slashes > 0 {
      var s := seq(slashes, _ => '/') + path;
      var t := seq(slashes - 1, _ => '/') + path;
      assert s[0] == '/' && s[1..] == t;
      LeadingSlashesIgnored(slashes - 1, path);
    } else {
      assert seq(slashes, _ => '/') + path == path;
    }
  }

  /** `/` and `/index.html` name the same file. */
  lemma RootIsIndex()
    ensures ResolvePath(SubstituteRoot("/")) == "www/index.html"
    ensures ResolvePath(SubstituteRoot(IndexPath)) == "www/index.html"
  {
    var name := IndexPath[1..];
    assert IndexPath == "/" + name;
    assert LStrip(name, '/') == name;
  }

  /**
   * Only the exact path `/` is substituted: `//`, `///` and so on resolve
   * to the web root directory itself (which is not a file).
   */
  lemma SlashesNotSubstituted(slashes: nat)
    requires slashes >= 2
    ensures SubstituteRoot(seq(slashes, _ => '/')) == seq(slashes, _ => '/')
    ensures ResolvePath(seq(slashes, _ => '/')) == WebRoot + "/"
  {
    assert |seq(slashes, _ => '/')| != |"/"|;
    LeadingSlashesIgnored(slashes, "");
    assert seq(slashes, _ => '/') + "" == seq(slashes, _ => '/');
  }

  /** The join does not normalise `..`: a request can name files outside the web root. */
  lemma NoTraversalDefence(rest: string)
    ensures ResolvePath("/../" + rest) == WebRoot + "/../" + rest
  {
    var p := "/../" + rest;
    assert p[0] == '/' && p[1..] == "../" + rest;
    assert ("../" + rest)[0] == '.';
    assert WebRoot + "/" + ("../" + rest) == WebRoot + "/../" + rest;
  }

  const DefaultType := "text/html"

  /** The next-to-last character is where the five suffixes differ. */
  lemma NextToLast(s: string, suffix: string)
    requires |suffix| >= 2
    ensures EndsWith(s, suffix) ==> s[|s| - 2] == suffix[|suffix| - 2]
  {
    if EndsWith(s, suffix) {
      assert s[|s| - 2] == s[|s| - |suffix|..][|suffix| - 2];
    }
  }

  /**
   * The content type of the file at `filepath`. No two suffixes the
   * server tests can both end one path, so the order of the tests never
   * decides: each suffix implies its own type, and a path with none of
   * them (upper-case suffixes included) is `text/html`.
   */
  function ContentType(filepath: string): (r: string)
    ensures EndsWith(filepath, ".css") ==> r == "text/css"
    ensures EndsWith(filepath, ".js") ==> r == "application/javascript"
    ensures EndsWith(filepath, ".jpg") || EndsWith(filepath, ".jpeg") ==> r == "image/jpeg"
    ensures EndsWith(filepath, ".png") ==> r == "image/png"
    ensures (!EndsWith(filepath, ".css") && !EndsWith(filepath, ".js") && !EndsWith(filepath, ".jpg") &&
             !EndsWith(filepath, ".jpeg") && !EndsWith(filepath, ".png")) ==> r == DefaultType
  {
    NextToLast(filepath, ".css");
    NextToLast(filepath, ".js");
    NextToLast(filepath, ".jpg");
    NextToLast(filepath, ".jpeg");
    NextToLast(filepath, ".png");
    if EndsWith(filepath, ".css") then "text/css"
    else if EndsWith(filepath, ".js") then "application/javascript"
    else if EndsWith(filepath, ".jpg") || EndsWith(filepath, ".jpeg") then "image/jpeg"
    else if EndsWith(filepath, ".png") then "image/png"
    else DefaultType
  }

  /** A suffix without `/` cannot reach back across the separator. */
  lemma EndsWithAfterSeparator(prefix: string, name: string, suffix: string)
    requires '/' !in suffix
    ensures EndsWith(prefix + "/" + name, suffix) <==> EndsWith(name, suffix)
  {
    var s := prefix + "/" + name;
    if |suffix| <= |name| {
      assert s[|s| - |suffix|..] == name[|name| - |suffix|..];
    } else if |suffix| <= |s| {
      var k := |suffix| - |name| - 1;
      assert s[|s| - |suffix|..][k] == s[|prefix|] == '/';
      assert suffix[k] != '/';
    }
  }

  /**
   * The type depends only on the requested name: testing the joined
   * path, as the server does, is the same as testing the request path
   * with its leading slashes removed.
   */
  lemma ContentTypeOfRequestPath(path: string)
    ensures ContentType(ResolvePath(path)) == ContentType(LStrip(path, '/'))
  {
    var name := LStrip(path, '/');
    var full := ResolvePath(path);
    assert full == WebRoot + "/" + name;
    EndsWithAfterSeparator(WebRoot, name, ".css");
    EndsWithAfterSeparator(WebRoot, name, ".js");
    EndsWithAfterSeparator(WebRoot, name, ".jpg");
    EndsWithAfterSeparator(WebRoot, name, ".jpeg");
    EndsWithAfterSeparator(WebRoot, name, ".png");
  }

  /**
   * Suffix tests are case-sensitive: a name ending in an upper-case
   * version of a tested suffix (`STYLE.CSS`, `APP.JS`, `PHOTO.JPG`,
   * `PHOTO.JPEG`, `LOGO.PNG`) is served as `text/html`.
   */
  lemma UpperCaseSuffixIsHtml(filepath: string)
    requires EndsWith(filepath, ".CSS") || EndsWith(filepath, ".JS") || EndsWith(filepath, ".JPG") ||
             EndsWith(filepath, ".JPEG") || EndsWith(filepath, ".PNG")
    ensures ContentType(filepath) == DefaultType
  {
    NextToLast(filepath, ".CSS");
    NextToLast(filepath, ".JS");
    NextToLast(filepath, ".JPG");
    NextToLast(filepath, ".JPEG");
    NextToLast(filepath, ".PNG");
    NextToLast(filepath, ".css");
    NextToLast(filepath, ".js");
    NextToLast(filepath, ".jpg");
    NextToLast(filepath, ".jpeg");
    NextToLast(filepath, ".png");
  }
}
