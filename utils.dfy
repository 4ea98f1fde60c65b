/**
 * The marker extractor of src/utils.rs: `get_content(content, start, end)`
 * returns the text after the first occurrence of `start`, up to the first
 * later occurrence of `end` when one is given, or up to the end of `content`
 * when none is.
 */
module Utils {
  import opened Wrappers
  import opened Text

  /** The three failures of `get_content`; the Rust code reports each as a message string. */
  datatype ExtractError = StartNotFound | EndNotFound | EmptyResult

  /** Index just past the first occurrence of `start` (Rust's `start_index`). */
  function StartIndex(content: string, start: string): (i: nat)
    requires Contains(content, start)
    ensures i <= |content|
  {
    Find(content, start).value + |start|
  }

  /** `get_content`. A successful result is never empty. */
  function GetContent(content: string, start: string, end: Option<string>): (r: Result<string, ExtractError>)
    ensures r.Ok? ==> r.value != []
  {
    match Find(content, start)
    case None => Err(StartNotFound)
    case Some(i) =>
      var startIndex := i + |start|;
      match end
      case Some(e) =>
        (match Find(content[startIndex..], e)
         case None => Err(EndNotFound)
         case Some(endIndex) =>
           if endIndex == 0 then Err(EmptyResult)
           else Ok(content[startIndex..startIndex + endIndex]))
      case None =>
        if startIndex >= |content| then Err(EmptyResult)
        else Ok(content[startIndex..])
  }

  /** The start-not-found error occurs exactly when `start` does not occur. */
  lemma StartNotFoundIff(content: string, start: string, end: Option<string>)
    ensures GetContent(content, start, end) == Err(StartNotFound) <==> !Contains(content, start)
  {
  }

  /**
   * With an end pattern, `end` is searched for only after the first start
   * match: the end-not-found error occurs exactly when it does not occur
   * there, whatever precedes the start match.
   */
  lemma EndNotFoundIff(content: string, start: string, end: string)
    requires Contains(content, start)
    ensures GetContent(content, start, Some(end)) == Err(EndNotFound)
            <==> !Contains(content[StartIndex(content, start)..], end)
  {
  }

  /** An end pattern sitting right after the first start match gives the empty-result error. */
  lemma EndRightAfterStart(content: string, start: string, end: string)
    requires Contains(content, start)
    requires OccursAt(content, end, StartIndex(content, start))
    ensures GetContent(content, start, Some(end)) == Err(EmptyResult)
  {
    var si := StartIndex(content, start);
    OccursIntoSlice(content, end, si, |content|, si);
  }

  /** Unfolds a successful extraction with an end pattern into the two searches it made. */
  lemma WithEndOkUnfold(content: string, start: string, end: string, body: string)
    requires GetContent(content, start, Some(end)) == Ok(body)
    ensures Contains(content, start)
    ensures StartIndex(content, start) + |body| <= |content|
    ensures Find(content[StartIndex(content, start)..], end) == Some(|body|)
    ensures body == content[StartIndex(content, start)..StartIndex(content, start) + |body|]
  {
    match Find(content, start)
    case None =>
      assert false;
    case Some(i) =>
      var si := i + |start|;
      assert si == StartIndex(content, start);
      match Find(content[si..], end)
      case None =>
        assert false;
      case Some(k) =>
        assert body == content[si..si + k];
  }

  /**
   * A successful extraction with an end pattern lies strictly between the
   * first start match and the first later end match: it is followed by
   * `end`, and no occurrence of `end` begins inside it (so it holds none).
   */
  lemma GetContentWithEndOk(content: string, start: string, end: string, body: string)
    requires GetContent(content, start, Some(end)) == Ok(body)
    ensures Contains(content, start)
    ensures var si := StartIndex(content, start);
      && si + |body| <= |content|
      && content[si..si + |body|] == body
      && OccursAt(content, end, si + |body|)
      && (forall j: nat :: si <= j < si + |body| ==> !OccursAt(content, end, j))
    ensures !Contains(body, end)
  {
    WithEndOkUnfold(content, start, end, body);
    var si := StartIndex(content, start);
    EndSearchFacts(content, si, end, |body|);
  }

  /** What the first match of `end` in the suffix from `si` says about `content` itself. */
  lemma EndSearchFacts(content: string, si: nat, end: string, k: nat)
    requires 0 < k && si + k <= |content|
    requires Find(content[si..], end) == Some(k)
    ensures OccursAt(content, end, si + k)
    ensures forall j: nat :: si <= j < si + k ==> !OccursAt(content, end, j)
    ensures !Contains(content[si..si + k], end)
  {
    OccursInSuffix(content, end, si, k);
    NoEarlierEnd(content, si, end, k);
    assert end != [] by {
      assert !OccursAt(content[si..], end, 0);
    }
    var inside := content[si..si + k];
    forall j: nat | j < k ensures !OccursAt(inside, end, j) {
      OccursInSlice(content, end, si, si + k, j);
    }
  }

  lemma NoEarlierEnd(content: string, si: nat, end: string, k: nat)
    requires si + k <= |content|
    requires Find(content[si..], end) == Some(k)
    ensures forall j: nat :: si <= j < si + k ==> !OccursAt(content, end, j)
  {
    forall j: nat | si <= j < si + k ensures !OccursAt(content, end, j) {
      OccursIntoSuffix(content, end, si, j);
    }
  }

  /**
   * Without an end pattern the result is an error exactly when the first
   * start match ends at the end of `content`; otherwise it is the whole
   * suffix after that match.
   */
  lemma WithoutEnd(content: string, start: string)
    requires Contains(content, start)
    ensures GetContent(content, start, None).Err? <==> StartIndex(content, start) == |content|
    ensures GetContent(content, start, None).Err? ==> GetContent(content, start, None).error == EmptyResult
    ensures GetContent(content, start, None).Ok? ==>
              GetContent(content, start, None).value == content[StartIndex(content, start)..]
  {
  }

  /**
   * On success `content` splits as before ++ start ++ result ++ rest, where
   * before ++ start is the shortest prefix of `content` that ends in `start`.
   */
  lemma {:induction false} Reconstruct(content: string, start: string, end: Option<string>, body: string)
    requires GetContent(content, start, end) == Ok(body)
    ensures Contains(content, start)
    ensures var i := Find(content, start).value;
      && i + |start| + |body| <= |content|
      && content == content[..i] + start + body + content[i + |start| + |body|..]
      && forall j: nat :: j < i ==> !OccursAt(content, start, j)
  {
    var i := Find(content, start).value;
    var si := i + |start|;
    assert si + |body| <= |content| && content[si..si + |body|] == body by {
      if end.Some? {
        GetContentWithEndOk(content, start, end.value, body);
      }
    }
    assert content[i..si] == start;
    SplitAt(content, i, si, si + |body|);
  }

  lemma SplitAt(s: string, a: nat, b: nat, c: nat)
    requires a <= b <= c <= |s|
    ensures s == s[..a] + s[a..b] + s[b..c] + s[c..]
  {
    assert s == s[..a] + s[a..];
    assert s[a..] == s[a..b] + s[b..];
    assert s[b..] == s[b..c] + s[c..];
  }

  /** What `get_content` extracts always occurs in the content it came from. */
  lemma ResultOccurs(content: string, start: string, end: Option<string>)
    requires GetContent(content, start, end).Ok?
    ensures Contains(content, GetContent(content, start, end).value)
  {
    var body := GetContent(content, start, end).value;
    Reconstruct(content, start, end, body);
    var i := Find(content, start).value;
    ContainsInfix(content[..i] + start, body, content[i + |start| + |body|..]);
  }

  /** An end match `k > 0` characters past the first start match: the text in between. */
  lemma EndFoundAt(content: string, start: string, end: string, si: nat, k: nat)
    requires Contains(content, start) && si == StartIndex(content, start)
    requires Find(content[si..], end) == Some(k) && 0 < k
    ensures si + k <= |content|
    ensures GetContent(content, start, Some(end)) == Ok(content[si..si + k])
  {
  }

  /** An end match right after the first start match: the empty-result error. */
  lemma EndFoundAtOnce(content: string, start: string, end: string, si: nat)
    requires Contains(content, start) && si == StartIndex(content, start)
    requires Find(content[si..], end) == Some(0)
    ensures GetContent(content, start, Some(end)) == Err(EmptyResult)
  {
  }

  /** No end match after the first start match: the end-not-found error. */
  lemma EndMissing(content: string, start: string, end: string, si: nat)
    requires Contains(content, start) && si == StartIndex(content, start)
    requires Find(content[si..], end) == None
    ensures GetContent(content, start, Some(end)) == Err(EndNotFound)
  {
  }

  /** No end pattern and text after the first start match: that text. */
  lemma NoEndGiven(content: string, start: string, si: nat)
    requires Contains(content, start) && si == StartIndex(content, start) && si < |content|
    ensures GetContent(content, start, None) == Ok(content[si..])
  {
  }

  /** `"Hello"` first occurs at the start of `"Hello, world!"`. */
  lemma FindHello(content: string)
    requires content == "Hello, world!"
    ensures Find(content, "Hello") == Some(0)
    ensures Contains(content, "Hello") && StartIndex(content, "Hello") == 5
  {
    assert content[..5] == "Hello";
  }

  /** Without an end pattern, the whole remainder after `"Hello"` is returned. */
  lemma HelloWorldWithoutEnd(content: string)
    requires content == "Hello, world!"
    ensures GetContent(content, "Hello", None) == Ok(", world!")
  {
    FindHello(content);
    NoEndGiven(content, "Hello", 5);
    assert content[5..] == ", world!";
  }

  /** With end `"!"` the extraction stops before the exclamation mark. */
  lemma HelloWorldUpToBang(content: string)
    requires content == "Hello, world!"
    ensures GetContent(content, "Hello", Some("!")) == Ok(", world")
  {
    FindHello(content);
    var rest := content[5..];
    assert rest == ", world!";
    BangAtSeven(rest);
    EndFoundAt(content, "Hello", "!", 5, 7);
    assert content[5..5 + 7] == ", world";
  }

  lemma BangAtSeven(rest: string)
    requires rest == ", world!"
    ensures Find(rest, "!") == Some(7)
  {
    assert rest[7..8] == "!";
    forall j: nat | j < 7 ensures !OccursAt(rest, "!", j) {
      if OccursAt(rest, "!", j) {
        OccursAtHead(rest, "!", j);
      }
    }
    FindIsFirst(rest, "!", 7);
  }

  /**
   * With end `","`, which sits right after `"Hello"`, the result is the
   * empty-result error, not the end-not-found error.
   */
  lemma HelloWorldUpToComma(content: string)
    requires content == "Hello, world!"
    ensures GetContent(content, "Hello", Some(",")) == Err(EmptyResult)
  {
    FindHello(content);
    var rest := content[5..];
    assert rest[..1] == ",";
    EndFoundAtOnce(content, "Hello", ",", 5);
  }

  /** An end pattern that occurs only before the start match is not found. */
  lemma EndBeforeStartExample(content: string)
    requires content == "a!Hello"
    ensures GetContent(content, "Hello", Some("!")) == Err(EndNotFound)
  {
    assert content[2..7] == "Hello";
    forall j: nat | j < 2 ensures !OccursAt(content, "Hello", j) {
      if OccursAt(content, "Hello", j) {
        OccursAtHead(content, "Hello", j);
      }
    }
    FindIsFirst(content, "Hello", 2);
    var rest := content[7..];
    assert rest == [];
    EndMissing(content, "Hello", "!", 7);
  }
}
