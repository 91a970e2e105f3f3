/**
 * The code-generation handler `SmartContractGeneratorApi.generateRust`:
 * it builds a prompt from the caller's description, a reference template
 * and the requested language, hands it to a text-generation service, and
 * turns the service's reply into an HTTP response by extracting the first
 * fenced code block tagged with the requested language.
 *
 * The template file and the service are inputs here: the template as an
 * `Option` (`None` when reading it failed) and the service as a function
 * from the prompt to its `Reply`.
 */
module Generator {
  import opened Text

  /** The closing fence, and the two opening tags the handler searches for. */
  const Fence := "```"
  const RustTag := "```rust"
  const TypeScriptTag := "```typescript"

  /** What the service did with the prompt. */
  datatype Reply =
    | Answered(status: int, content: string)  // `response.status`, `choices[0].message.content`
    | Thrown                                  // the call raised an exception

  datatype Body = Code(code: string) | Error(error: string)

  datatype Response = Response(body: Body, statusCode: string)

  // ---------------------------------------------------------------------
  // Prompt construction
  // ---------------------------------------------------------------------

  /** The prompt text, interpolating the description, the template and (twice) the language. */
  function Prompt(description: string, template: string, language: string): (p: string)
    ensures exists a, b, c, d ::
      && OccursAt(p, description, a)
      && a + |description| <= b && OccursAt(p, template, b)
      && b + |template| <= c && OccursAt(p, language, c)
      && c + |language| <= d && OccursAt(p, language, d)
  {
    var s0 := "This is a description for a new smart contract: ";
    var s1 := ".\n      This is a template for a smart contract from MultiversX blockchain: ";
    var s2 := ".\n      Use them to generate a new smart contract in ";
    var s3 := ".\n      Provide only the ";
    var s4 := " code.";
    var p := s0 + description + s1 + template + s2 + language + s3 + language + s4;
    InterpolatedInOrder(s0, description, s1, template, s2, language, s3, language, s4);
    p
  }

  /**
   * Whatever the fixed text around them, four interpolated values occur in
   * the result one after the other.
   */
  lemma InterpolatedInOrder(s0: string, v1: string, s1: string, v2: string, s2: string,
                            v3: string, s3: string, v4: string, s4: string)
    ensures var p := s0 + v1 + s1 + v2 + s2 + v3 + s3 + v4 + s4;
      exists a, b, c, d ::
        && OccursAt(p, v1, a)
        && a + |v1| <= b && OccursAt(p, v2, b)
        && b + |v2| <= c && OccursAt(p, v3, c)
        && c + |v3| <= d && OccursAt(p, v4, d)
  {
    var q1 := s0 + v1;
    OccursAtEnd(s0, v1);
    var q2 := q1 + s1;
    OccursExtended(q1, s1, v1, |s0|);
    var q3 := q2 + v2;
    OccursExtended(q2, v2, v1, |s0|);
    OccursAtEnd(q2, v2);
    var q4 := q3 + s2;
    OccursExtended(q3, s2, v1, |s0|);
    OccursExtended(q3, s2, v2, |q2|);
    var q5 := q4 + v3;
    OccursExtended(q4, v3, v1, |s0|);
    OccursExtended(q4, v3, v2, |q2|);
    OccursAtEnd(q4, v3);
    var q6 := q5 + s3;
    OccursExtended(q5, s3, v1, |s0|);
    OccursExtended(q5, s3, v2, |q2|);
    OccursExtended(q5, s3, v3, |q4|);
    var q7 := q6 + v4;
    OccursExtended(q6, v4, v1, |s0|);
    OccursExtended(q6, v4, v2, |q2|);
    OccursExtended(q6, v4, v3, |q4|);
    OccursAtEnd(q6, v4);
    var p := q7 + s4;
    OccursExtended(q7, s4, v1, |s0|);
    OccursExtended(q7, s4, v2, |q2|);
    OccursExtended(q7, s4, v3, |q4|);
    OccursExtended(q7, s4, v4, |q6|);
  }

  // ---------------------------------------------------------------------
  // Fenced-block extraction
  // ---------------------------------------------------------------------

  /** The opening tag for a lower-cased language name: only "rust" and "typescript" have one. */
  function TagFor(languageLC: string): (tag: Option<string>)
    ensures tag.Some? <==> languageLC == "rust" || languageLC == "typescript"
    ensures tag.Some? ==> tag.value == Fence + languageLC
  {
    if languageLC == "rust" then Some(RustTag)
    else if languageLC == "typescript" then Some(TypeScriptTag)
    else None
  }

  /**
   * The pattern `tag([\s\S]*?)```` matches `reply` from index `i`, with its
   * closing fence at index `k`; the captured group is `reply[i + |tag|..k]`.
   */
  ghost predicate IsMatch(tag: string, reply: string, i: int, k: int) {
    OccursAt(reply, tag, i) && i + |tag| <= k && OccursAt(reply, Fence, k)
  }

  /**
   * The match a regular-expression `exec` reports: the leftmost start, and
   * at that start the shortest (lazy) body.
   */
  ghost predicate IsFirstMatch(tag: string, reply: string, i: int, k: int) {
    && IsMatch(tag, reply, i, k)
    && forall i', k' :: IsMatch(tag, reply, i', k') ==> i < i' || (i == i' && k <= k')
  }

  lemma FirstMatchUnique(tag: string, reply: string, i: int, k: int, i': int, k': int)
    requires IsFirstMatch(tag, reply, i, k) && IsFirstMatch(tag, reply, i', k')
    ensures i == i' && k == k'
  {
  }

  /**
   * Where `tag([\s\S]*?)```` first matches `reply`, as a search: the first
   * opening tag `i`, then the first closing fence `k` after it.
   */
  function Search(tag: string, reply: string): (m: Option<(nat, nat)>)
    ensures m.None? ==> forall i, k :: !IsMatch(tag, reply, i, k)
    ensures m.Some? ==> IsFirstMatch(tag, reply, m.value.0, m.value.1)
  {
    match Find(reply, tag, 0)
    case None => None
    case Some(i) =>
      match Find(reply, Fence, i + |tag|)
      case None =>
        // A later opening tag would need a closing fence even further on.
        assert forall i', k' :: !IsMatch(tag, reply, i', k') by {
          forall i', k' ensures !IsMatch(tag, reply, i', k') {
            if OccursAt(reply, tag, i') && i' + |tag| <= k' {
              assert i <= i';
            }
          }
        }
        None
      case Some(k) => Some((i, k))
  }

  /** Group 1 of the match, untrimmed; `None` is the regex's `null`. */
  function Capture(tag: string, reply: string): (c: Option<string>)
    ensures c.None? <==> forall i, k :: !IsMatch(tag, reply, i, k)
    ensures c.Some? ==> IsSubstring(c.value, reply)
  {
    match Search(tag, reply)
    case None => None
    case Some((i, k)) =>
      assert OccursAt(reply, reply[i + |tag|..k], i + |tag|);
      Some(reply[i + |tag|..k])
  }

  /** Any first match decides the capture: its interior is group 1. */
  lemma CaptureIsFirstBlock(tag: string, reply: string, i: int, k: int)
    requires IsFirstMatch(tag, reply, i, k)
    ensures Capture(tag, reply) == Some(reply[i + |tag|..k])
  {
    var m := Search(tag, reply);
    FirstMatchUnique(tag, reply, i, k, m.value.0, m.value.1);
  }

  /**
   * The value of `code` once the language has been dispatched: the trimmed
   * capture, or `None` (`null`) when the language has no tag or nothing
   * matched.
   */
  function ExtractCode(languageLC: string, reply: string): (code: Option<string>)
    ensures code.Some? ==> TagFor(languageLC).Some?
    ensures code.Some? ==> NoEdgeWhitespace(code.value) && IsSubstring(code.value, reply)
  {
    match TagFor(languageLC)
    case None => None
    case Some(tag) =>
      match Capture(tag, reply)
      case None => None
      case Some(c) =>
        TrimInside(c, reply);
        Some(Trim(c))
  }

  /** Trimming a part of `s` leaves a part of `s`. */
  lemma TrimInside(c: string, s: string)
    requires IsSubstring(c, s)
    ensures IsSubstring(Trim(c), s)
  {
    var i :| OccursAt(s, c, i);
    var j :| OccursAt(c, Trim(c), j);
    SubstringTransitive(Trim(c), c, s, j, i);
  }

  // ---------------------------------------------------------------------
  // Responses
  // ---------------------------------------------------------------------

  function NoCodeMessage(language: string): string {
    "No " + language + " code generated."
  }

  function UpstreamMessage(language: string): string {
    "Error generating " + language + " code."
  }

  const InternalError := Response(Error("Internal Server Error"), "500")

  /** The handler's answer once the service has replied. */
  function Respond(language: string, reply: Reply): (r: Response)
    ensures r.statusCode == "200" <==> r.body.Code?
    ensures r.statusCode == "200" || r.statusCode == "500"
    ensures reply.Thrown? ==> r == InternalError
  {
    match reply
    case Thrown => InternalError
    case Answered(status, content) =>
      if status == 200 then
        var code := ExtractCode(Lower(language), content);
        if code.Some? && code.value != [] then Response(Code(code.value), "200")
        else Response(Error(NoCodeMessage(language)), "500")
      else
        Response(Error(UpstreamMessage(language)), "500")
  }

  /**
   * The whole handler. `template` is the content of the template file, or
   * `None` when reading it failed; `service` is the text-generation call.
   */
  function GenerateRust(description: string, language: string, template: Option<string>,
                        service: string -> Reply): (r: Response)
    ensures r.statusCode == "200" <==> r.body.Code?
    ensures template.None? ==> r == InternalError
    ensures template.Some? && service(Prompt(description, template.value, language)).Thrown? ==>
      r == InternalError
    ensures r.body.Code? ==> exists content ::
      service(Prompt(description, template.value, language)) == Answered(200, content)
      && NoEdgeWhitespace(r.body.code) && r.body.code != [] && IsSubstring(r.body.code, content)
  {
    match template
    case None => InternalError
    case Some(t) =>
      var r := Respond(language, service(Prompt(description, t, language)));
      SuccessIsTrimmedPartOfReply(language, service(Prompt(description, t, language)));
      r
  }

  // ---------------------------------------------------------------------
  // Properties
  // ---------------------------------------------------------------------

  /**
   * A success carries non-empty code, without leading or trailing
   * whitespace, that occurs in the service's reply, and the language was
   * one with a tag.
   */
  lemma SuccessIsTrimmedPartOfReply(language: string, reply: Reply)
    ensures Respond(language, reply).statusCode == "200" ==>
      && reply.Answered? && reply.status == 200
      && TagFor(Lower(language)).Some?
      && var code := Respond(language, reply).body.code;
      && code != [] && NoEdgeWhitespace(code) && IsSubstring(code, reply.content)
  {
  }

  /**
   * With status 200 and a supported language, the response is decided by
   * the first fenced block alone: its trimmed interior if that is not
   * empty, and the extraction error otherwise.
   */
  lemma FirstBlockDecides(language: string, content: string, i: int, k: int)
    requires Lower(language) == "rust" || Lower(language) == "typescript"
    requires IsFirstMatch(Fence + Lower(language), content, i, k)
    ensures var code := Trim(content[i + |Fence + Lower(language)|..k]);
      Respond(language, Answered(200, content)) ==
        if code != [] then Response(Code(code), "200")
        else Response(Error(NoCodeMessage(language)), "500")
  {
    var lc := Lower(language);
    var tag := Fence + lc;
    assert TagFor(lc) == Some(tag);
    CaptureIsFirstBlock(tag, content, i, k);
    assert ExtractCode(lc, content) == Some(Trim(content[i + |tag|..k]));
  }

  /**
   * If no opening tag for the selected language is followed by a closing
   * fence, the response is the extraction error: nothing partial is
   * returned.
   */
  lemma NoBlockIsExtractionError(language: string, content: string)
    requires forall i, k :: !IsMatch(Fence + Lower(language), content, i, k)
    ensures Respond(language, Answered(200, content)) == Response(Error(NoCodeMessage(language)), "500")
  {
  }

  /** A whitespace-only block interior yields the extraction error, not empty code. */
  lemma BlankBlockIsExtractionError(language: string, content: string, i: int, k: int)
    requires Lower(language) == "rust" || Lower(language) == "typescript"
    requires IsFirstMatch(Fence + Lower(language), content, i, k)
    requires AllWhitespace(content[i + |Fence + Lower(language)|..k])
    ensures Respond(language, Answered(200, content)) == Response(Error(NoCodeMessage(language)), "500")
  {
    FirstBlockDecides(language, content, i, k);
  }

  /** Whether `pat` occurs at `j` depends only on the first `n` characters, when it ends by `n`. */
  lemma OccursWithinPrefix(s: string, s': string, pat: string, j: int, n: int)
    requires 0 <= j && j + |pat| <= n <= |s| && n <= |s'|
    requires s[..n] == s'[..n]
    ensures OccursAt(s, pat, j) <==> OccursAt(s', pat, j)
  {
    assert s[j..j + |pat|] == s[..n][j..j + |pat|];
    assert s'[j..j + |pat|] == s'[..n][j..j + |pat|];
  }

  /** Replacing what follows the first match's closing fence keeps it the first match. */
  lemma FirstMatchKeptAfterFence(tag: string, content: string, i: int, k: int, rest: string)
    requires IsFirstMatch(tag, content, i, k)
    ensures IsFirstMatch(tag, content[..k + |Fence|] + rest, i, k)
  {
    var n := k + |Fence|;
    var content' := content[..n] + rest;
    assert content'[..n] == content[..n];
    OccursWithinPrefix(content, content', tag, i, n);
    OccursWithinPrefix(content, content', Fence, k, n);
    forall i', k' | IsMatch(tag, content', i', k') ensures i < i' || (i == i' && k <= k') {
      // An earlier opening tag, or an earlier closing fence, lies wholly
      // within the kept part and would have given `content` an earlier match.
      if i' < i {
        OccursWithinPrefix(content, content', tag, i', n);
        assert IsMatch(tag, content, i', k);
      } else if i' == i && k' < k {
        OccursWithinPrefix(content, content', Fence, k', n);
        assert IsMatch(tag, content, i, k');
      }
    }
  }

  /**
   * Nothing after the first block's closing fence is inspected: replacing
   * it by any other text leaves the response unchanged.
   */
  lemma LaterTextIgnored(language: string, content: string, i: int, k: int, rest: string)
    requires Lower(language) == "rust" || Lower(language) == "typescript"
    requires IsFirstMatch(Fence + Lower(language), content, i, k)
    ensures Respond(language, Answered(200, content[..k + |Fence|] + rest)) ==
            Respond(language, Answered(200, content))
  {
    var tag := Fence + Lower(language);
    var content' := content[..k + |Fence|] + rest;
    FirstMatchKeptAfterFence(tag, content, i, k, rest);
    assert content'[i + |tag|..k] == content[i + |tag|..k];
    FirstBlockDecides(language, content, i, k);
    FirstBlockDecides(language, content', i, k);
  }

  /**
   * The language is compared case-insensitively: two spellings with the
   * same lower-case form get the same response, except that each error
   * message naming the language echoes the caller's own spelling.
   */
  lemma CaseInsensitiveLanguage(l1: string, l2: string, reply: Reply)
    requires Lower(l1) == Lower(l2)
    ensures Respond(l2, reply) ==
      if Respond(l1, reply).body == Error(NoCodeMessage(l1)) then Response(Error(NoCodeMessage(l2)), "500")
      else if Respond(l1, reply).body == Error(UpstreamMessage(l1)) then Response(Error(UpstreamMessage(l2)), "500")
      else Respond(l1, reply)
  {
    MessagesDistinct(l1);
    MessagesDistinct(l2);
  }

  /** The three error bodies can never be confused with one another. */
  lemma MessagesDistinct(language: string)
    ensures NoCodeMessage(language) != UpstreamMessage(language)
    ensures NoCodeMessage(language) != "Internal Server Error"
    ensures UpstreamMessage(language) != "Internal Server Error"
  {
    assert NoCodeMessage(language)[0] == 'N';
    assert UpstreamMessage(language)[0] == 'E';
  }

  /**
   * A language whose lower-case form is neither "rust" nor "typescript"
   * always gets the extraction error, whatever blocks the reply contains.
   */
  lemma UnsupportedLanguageIsExtractionError(language: string, content: string)
    requires Lower(language) != "rust" && Lower(language) != "typescript"
    ensures Respond(language, Answered(200, content)) == Response(Error(NoCodeMessage(language)), "500")
  {
  }

  /**
   * A status other than 200 gets the upstream error, and the reply's
   * content is never looked at.
   */
  lemma UpstreamErrorIgnoresContent(language: string, status: int, c1: string, c2: string)
    requires status != 200
    ensures Respond(language, Answered(status, c1)) == Response(Error(UpstreamMessage(language)), "500")
    ensures Respond(language, Answered(status, c1)) == Respond(language, Answered(status, c2))
  {
  }

  /** `c` does not occur in `s`. */
  predicate Lacks(s: string, c: char) {
    forall j :: 0 <= j < |s| ==> s[j] != c
  }

  /**
   * A reply that is exactly one block, `tag`, an interior without
   * backticks and a closing fence, is decided by that interior.
   */
  lemma SingleBlockReply(language: string, inner: string)
    requires Lower(language) == "rust" || Lower(language) == "typescript"
    requires Lacks(inner, '`')
    ensures var content := Fence + Lower(language) + inner + Fence;
      Respond(language, Answered(200, content)) ==
        if Trim(inner) != [] then Response(Code(Trim(inner)), "200")
        else Response(Error(NoCodeMessage(language)), "500")
  {
    var tag := Fence + Lower(language);
    var content := tag + inner + Fence;
    var k := |tag| + |inner|;
    assert content[0..|tag|] == tag;
    assert content[k..k + |Fence|] == Fence;
    // A closing fence inside the interior would start with a backtick.
    forall k' | |tag| <= k' < k ensures !OccursAt(content, Fence, k') {
      assert content[k'] == inner[k' - |tag|];
      if k' + |Fence| <= |content| {
        assert content[k'..k' + |Fence|][0] == content[k'];
      }
    }
    assert content[|tag|..k] == inner;
    FirstBlockDecides(language, content, 0, k);
  }

  /** A pattern containing a character that `s` lacks never occurs in `s`. */
  lemma AbsentCharNoOccurrence(s: string, pat: string, x: int)
    requires 0 <= x < |pat| && Lacks(s, pat[x])
    ensures forall j :: !OccursAt(s, pat, j)
  {
    forall j ensures !OccursAt(s, pat, j) {
      if 0 <= j && j + |pat| <= |s| {
        assert s[j..j + |pat|][x] == s[j + x];
      }
    }
  }

  // ---------------------------------------------------------------------
  // Examples
  // ---------------------------------------------------------------------

  /** The interior of the example block below: no backticks, and trimming drops its two newlines. */
  lemma ExampleInterior(inner: string)
    requires inner == "\nfn add(a,b){a+b}\n"
    ensures Lacks(inner, '`') && Trim(inner) == "fn add(a,b){a+b}"
  {
    assert Lacks(inner, '`');
    assert inner == "\n" + "fn add(a,b){a+b}" + "\n";
    TrimSurrounded("\n", "fn add(a,b){a+b}", "\n");
  }

  /** "Rust" selects the rust tag, and the block's surrounding newlines are trimmed away. */
  lemma RustReplyExample(language: string, content: string)
    requires language == "Rust" && content == RustTag + "\nfn add(a,b){a+b}\n" + Fence
    ensures Respond(language, Answered(200, content)) == Response(Code("fn add(a,b){a+b}"), "200")
  {
    var inner := "\nfn add(a,b){a+b}\n";
    assert Lower(language) == "rust";
    assert content == Fence + Lower(language) + inner + Fence;
    ExampleInterior(inner);
    SingleBlockReply(language, inner);
  }

  /** The fence tag is case-sensitive: a block opened by "```Rust" is not found. */
  lemma CapitalisedFenceExample(language: string, content: string)
    requires language == "rust" && content == "```Rust\nfn main() {}\n```"
    ensures Respond(language, Answered(200, content)) == Response(Error("No rust code generated."), "500")
  {
    assert NoCodeMessage(language) == "No rust code generated.";
    assert Lacks(content, 'r');
    AbsentCharNoOccurrence(content, RustTag, 3);
    assert Fence + Lower(language) == RustTag;
    NoBlockIsExtractionError(language, content);
  }

  /**
   * The opening tag is matched as a literal prefix, so "```rustacean" opens
   * a rust block whose captured code starts with "acean".
   */
  lemma TagPrefixExample(language: string, content: string)
    requires language == "rust" && content == "```rustacean crab```"
    ensures Respond(language, Answered(200, content)) == Response(Code("acean crab"), "200")
  {
    var inner := "acean crab";
    assert Lacks(inner, '`');
    assert Lower(language) == "rust";
    assert content == Fence + Lower(language) + inner + Fence;
    assert [] + inner + [] == inner;
    TrimSurrounded([], inner, []);
    SingleBlockReply(language, inner);
  }
}
