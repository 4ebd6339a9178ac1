/** `extLogoUrl` (extract.py:73-82): a first-match scan over the `src` values of the
    page's `<img>` elements in document order. */
module LogoUrl {
  import opened Optional

  /** `urljoin(base, src)`, reference resolution done by a library outside this
      model; the caller supplies it. */
  type Resolver = (string, string) -> string

  predicate EndsWith(s: string, suffix: string) {
    |suffix| <= |s| && s[|s| - |suffix|..] == suffix
  }

  /** The case-sensitive `str.endswith` test on the raw attribute value. */
  predicate HasImageExtension(src: string) {
    EndsWith(src, ".png") || EndsWith(src, ".jpg") || EndsWith(src, ".jpeg")
    || EndsWith(src, ".webp") || EndsWith(src, ".svg")
  }

  /** The attribute filter of `find_all`: the `src` is present (`Some`), truthy
      (non-empty) and ends in an image extension. */
  predicate IsCandidate(src: Option<string>) {
    src.Some? && src.value != "" && HasImageExtension(src.value)
  }

  /** The `src` values `find_all` yields, in document order. */
  function Candidates(imgs: seq<Option<string>>): (r: seq<string>)
    ensures |r| <= |imgs|
    ensures forall k :: 0 <= k < |r| ==> IsCandidate(Some(r[k]))
  {
    if imgs == [] then []
    else (if IsCandidate(imgs[0]) then [imgs[0].value] else []) + Candidates(imgs[1..])
  }

  /** Every image that passes the filter is yielded: together with the ensures of
      Candidates, the filter is an if-and-only-if. */
  lemma {:induction false} CandidatesComplete(imgs: seq<Option<string>>, i: int)
    requires 0 <= i < |imgs| && IsCandidate(imgs[i])
    ensures imgs[i].value in Candidates(imgs)
  {
    if i > 0 {
      CandidatesComplete(imgs[1..], i - 1);
    }
  }

  /** Filtering distributes over concatenation: document order is kept. */
  lemma {:induction false} CandidatesAppend(a: seq<Option<string>>, b: seq<Option<string>>)
    ensures Candidates(a + b) == Candidates(a) + Candidates(b)
  {
    if a == [] {
      assert a + b == b;
    } else {
      var head := if IsCandidate(a[0]) then [a[0].value] else [];
      assert (a + b)[0] == a[0];
      assert (a + b)[1..] == a[1..] + b;
      assert Candidates(a + b) == head + Candidates(a[1..] + b);
      CandidatesAppend(a[1..], b);
      assert Candidates(a) == head + Candidates(a[1..]);
    }
  }

  /** `.replace(" ", "%20")`: every space becomes the three characters "%20". */
  function EncodeSpaces(s: string): (r: string)
    ensures ' ' !in r
    ensures ' ' !in s ==> r == s
    ensures |r| >= |s|
  {
    if s == [] then []
    else (if s[0] == ' ' then "%20" else [s[0]]) + EncodeSpaces(s[1..])
  }

  /** Turns every "%20" back into a space: the inverse partner of EncodeSpaces. */
  function DecodeSpaces(s: string): string
  {
    if s == [] then []
    else if |s| >= 3 && s[..3] == "%20" then [' '] + DecodeSpaces(s[3..])
    else [s[0]] + DecodeSpaces(s[1..])
  }

  lemma DecodeAfterSpace(t: string)
    ensures DecodeSpaces("%20" + t) == [' '] + DecodeSpaces(t)
  {
  }

  lemma DecodeAfterOther(c: char, t: string)
    requires c != '%'
    ensures DecodeSpaces([c] + t) == [c] + DecodeSpaces(t)
  {
  }

  /** Space encoding loses nothing on strings without a '%'. */
  lemma {:induction false} DecodeEncode(s: string)
    requires '%' !in s
    ensures DecodeSpaces(EncodeSpaces(s)) == s
  {
    if s != [] {
      var rest := EncodeSpaces(s[1..]);
      assert EncodeSpaces(s) == (if s[0] == ' ' then "%20" else [s[0]]) + rest;
      DecodeEncode(s[1..]);
      if s[0] == ' ' {
        DecodeAfterSpace(rest);
      } else {
        DecodeAfterOther(s[0], rest);
      }
      assert s == [s[0]] + s[1..];
    }
  }

  /** ASCII lower-casing, which is all that IGNORECASE changes for the letters of "logo". */
  function FoldCase(c: char): char {
    if 'A' <= c <= 'Z' then (c as int + 32) as char else c
  }

  predicate LogoAt(s: string, i: nat)
    requires i + 4 <= |s|
  {
    FoldCase(s[i]) == 'l' && FoldCase(s[i + 1]) == 'o'
    && FoldCase(s[i + 2]) == 'g' && FoldCase(s[i + 3]) == 'o'
  }

  /** `re.search(r'logo', s, re.IGNORECASE)` succeeds. */
  predicate ContainsLogo(s: string) {
    exists i: nat :: i + 4 <= |s| && LogoAt(s, i)
  }

  /** The URL the loop builds from a candidate `src`. */
  function FullUrl(base: string, src: string, resolve: Resolver): string {
    EncodeSpaces(resolve(base, src))
  }

  /** An `<img>` that passes both filters: it is a candidate and its URL mentions "logo". */
  predicate Qualifies(img: Option<string>, base: string, resolve: Resolver) {
    IsCandidate(img) && ContainsLogo(FullUrl(base, img.value, resolve))
  }

  /** The first candidate whose URL mentions "logo", as a short-circuit scan. */
  function FirstLogo(cands: seq<string>, base: string, resolve: Resolver): (r: Option<string>)
    ensures r.Some? ==> ContainsLogo(r.value) && ' ' !in r.value
    ensures r.Some? ==> exists k :: 0 <= k < |cands| && r.value == FullUrl(base, cands[k], resolve)
  {
    if cands == [] then None
    else
      var u := FullUrl(base, cands[0], resolve);
      if ContainsLogo(u) then Some(u) else FirstLogo(cands[1..], base, resolve)
  }

  /** The logo URL `extLogoUrl` settles on for a page. */
  function LogoOf(imgs: seq<Option<string>>, base: string, resolve: Resolver): Option<string> {
    FirstLogo(Candidates(imgs), base, resolve)
  }

  /** One step of the scan over the image list itself. */
  lemma LogoOfCons(imgs: seq<Option<string>>, base: string, resolve: Resolver)
    requires imgs != []
    ensures LogoOf(imgs, base, resolve) ==
      if Qualifies(imgs[0], base, resolve) then Some(FullUrl(base, imgs[0].value, resolve))
      else LogoOf(imgs[1..], base, resolve)
  {
    var rest := Candidates(imgs[1..]);
    if IsCandidate(imgs[0]) {
      var c := [imgs[0].value] + rest;
      assert Candidates(imgs) == c;
      assert c[0] == imgs[0].value && c[1..] == rest;
    } else {
      assert Candidates(imgs) == rest;
    }
  }

  /** Image `i` is the first, in document order, to pass both filters. */
  predicate FirstQualifying(imgs: seq<Option<string>>, i: int, base: string, resolve: Resolver) {
    0 <= i < |imgs| && Qualifies(imgs[i], base, resolve)
    && forall j :: 0 <= j < i ==> !Qualifies(imgs[j], base, resolve)
  }

  /** The result is None exactly when no image passes both filters. */
  lemma {:induction false} LogoOfNone(imgs: seq<Option<string>>, base: string, resolve: Resolver)
    ensures LogoOf(imgs, base, resolve).None? <==>
      forall i :: 0 <= i < |imgs| ==> !Qualifies(imgs[i], base, resolve)
  {
    if imgs != [] {
      LogoOfCons(imgs, base, resolve);
      var tail := imgs[1..];
      LogoOfNone(tail, base, resolve);
      assert forall i :: 1 <= i < |imgs| ==> imgs[i] == tail[i - 1];
    }
  }

  /** The first image that passes both filters gives the result. */
  lemma {:induction false} LogoOfFirst(imgs: seq<Option<string>>, i: int, base: string, resolve: Resolver)
    requires FirstQualifying(imgs, i, base, resolve)
    ensures LogoOf(imgs, base, resolve) == Some(FullUrl(base, imgs[i].value, resolve))
  {
    LogoOfCons(imgs, base, resolve);
    if i > 0 {
      var tail := imgs[1..];
      assert forall j :: 0 <= j < i - 1 ==> tail[j] == imgs[j + 1];
      LogoOfFirst(tail, i - 1, base, resolve);
    }
  }

  /** The result is the URL of the first image, in document order, that passes
      both filters, and None exactly when no image passes them. */
  lemma LogoOfIsFirstQualifying(imgs: seq<Option<string>>, base: string, resolve: Resolver)
    ensures LogoOf(imgs, base, resolve).None? <==>
      forall i :: 0 <= i < |imgs| ==> !Qualifies(imgs[i], base, resolve)
    ensures LogoOf(imgs, base, resolve).Some? ==>
      exists i :: FirstQualifying(imgs, i, base, resolve)
        && LogoOf(imgs, base, resolve).value == FullUrl(base, imgs[i].value, resolve)
  {
    LogoOfNone(imgs, base, resolve);
    if LogoOf(imgs, base, resolve).Some? {
      var i :| 0 <= i < |imgs| && Qualifies(imgs[i], base, resolve);
      var k := LeastQualifying(imgs, i, base, resolve);
      LogoOfFirst(imgs, k, base, resolve);
    }
  }

  /** Some image passes both filters, so a first one does. */
  lemma {:induction false} LeastQualifying(imgs: seq<Option<string>>, i: int, base: string, resolve: Resolver)
    returns (k: int)
    requires 0 <= i < |imgs| && Qualifies(imgs[i], base, resolve)
    ensures k <= i && FirstQualifying(imgs, k, base, resolve)
    decreases i
  {
    if exists j :: 0 <= j < i && Qualifies(imgs[j], base, resolve) {
      var j :| 0 <= j < i && Qualifies(imgs[j], base, resolve);
      k := LeastQualifying(imgs, j, base, resolve);
    } else {
      k := i;
    }
  }

  /** Once a prefix of the page yields a logo, nothing after it matters. */
  lemma {:induction false} FirstLogoIgnoresLater(a: seq<string>, b: seq<string>, base: string, resolve: Resolver)
    requires FirstLogo(a, base, resolve).Some?
    ensures FirstLogo(a + b, base, resolve) == FirstLogo(a, base, resolve)
  {
    if !ContainsLogo(FullUrl(base, a[0], resolve)) {
      assert (a + b)[1..] == a[1..] + b;
      FirstLogoIgnoresLater(a[1..], b, base, resolve);
    }
  }

  /** The images after the first qualifying one have no influence on the result. */
  lemma LaterImagesIgnored(a: seq<Option<string>>, b: seq<Option<string>>, base: string, resolve: Resolver)
    requires LogoOf(a, base, resolve).Some?
    ensures LogoOf(a + b, base, resolve) == LogoOf(a, base, resolve)
  {
    CandidatesAppend(a, b);
    FirstLogoIgnoresLater(Candidates(a), Candidates(b), base, resolve);
  }

  /** What `print(logo_url if logo_url else "None")` writes. */
  function LogoLine(logo: Option<string>): string {
    if logo.Some? && logo.value != "" then logo.value else "None"
  }

  /** `extLogoUrl`: scan the candidates in order, resolve and space-encode each, and
      stop at the first whose URL mentions "logo". Returns the printed line. */
  method ExtLogoUrl(imgs: seq<Option<string>>, base: string, resolve: Resolver) returns (line: string)
    ensures line == LogoLine(LogoOf(imgs, base, resolve))
    ensures ' ' !in line
    ensures line == "None" <==> forall i :: 0 <= i < |imgs| ==> !Qualifies(imgs[i], base, resolve)
    ensures line != "None" ==> ContainsLogo(line)
  {
    var cands := Candidates(imgs);
    var logo: Option<string> := None;
    var i := 0;
    while i < |cands|
      invariant 0 <= i <= |cands|
      invariant logo == None
      invariant FirstLogo(cands[i..], base, resolve) == FirstLogo(cands, base, resolve)
    {
      var src := cands[i];
      if src != "" {
        var full := FullUrl(base, src, resolve);
        if ContainsLogo(full) {
          logo := Some(full);
          break;
        }
      }
      assert cands[i..][1..] == cands[i + 1..];
      i := i + 1;
    }
    line := if logo.Some? && logo.value != "" then logo.value else "None";
    LogoOfIsFirstQualifying(imgs, base, resolve);
    assert !ContainsLogo("None");
  }
}
