/** `translate_js_file` without its I/O: the framing flags read from the source
    text, and the stages run one after the other on the matches the two
    patterns find in it. */
module Pipeline {
  import opened Options
  import opened Text
  import opened OrderedDicts
  import opened Content
  import opened Placeholders
  import opened Batching
  import opened Extraction
  import opened TreeTranslation
  import opened NestedTranslation
  import opened TreeReplay
  import opened JsOutput

  /** `content.strip().startswith('{') and content.strip().endswith('}')`
      (translate.py:192). */
  predicate WrapWithBraces(content: string) {
    StartsWith(Strip(content), "{") && EndsWith(Strip(content), "}")
  }

  /** `'export default' in content` (translate.py:193). */
  predicate IncludeExportDefault(content: string) {
    Contains(content, "export default")
  }

  predicate Blank(s: string) {
    forall k :: 0 <= k < |s| ==> IsSpace(s[k])
  }

  /** The text is a `{` and, later, a `}` with nothing but whitespace before the
      one and after the other. */
  lemma WrapWithBracesIff(content: string)
    ensures WrapWithBraces(content)
        <==> exists i, j :: 0 <= i < j < |content| && content[i] == '{' && content[j] == '}'
                            && Blank(content[..i]) && Blank(content[j + 1..])
  {
    var n, s := LeadingSpaces(content), Strip(content);
    StripSlice(content);
    if WrapWithBraces(content) {
      assert s[0] == '{' && s[|s| - 1] == '}';
      var i, j := n, n + |s| - 1;
      assert content[i] == s[0] && content[j] == s[|s| - 1];
      assert Blank(content[..i]) by {
        forall k | 0 <= k < i ensures IsSpace(content[..i][k]) {
          assert content[..i][k] == content[k];
        }
      }
      var tail := content[j + 1..];
      forall k | 0 <= k < |tail| ensures IsSpace(tail[k]) {
        assert tail[k] == content[j + 1 + k];
      }
    }
    if exists i, j :: 0 <= i < j < |content| && content[i] == '{' && content[j] == '}'
                      && Blank(content[..i]) && Blank(content[j + 1..]) {
      var i, j :| 0 <= i < j < |content| && content[i] == '{' && content[j] == '}'
                  && Blank(content[..i]) && Blank(content[j + 1..]);
      BracesStrip(content, i, j);
    }
  }

  /** The whitespace around a `{` … `}` is what `strip` removes. */
  lemma BracesStrip(content: string, i: nat, j: nat)
    requires i < j < |content| && content[i] == '{' && content[j] == '}'
    requires Blank(content[..i]) && Blank(content[j + 1..])
    ensures WrapWithBraces(content)
  {
    var n, s := LeadingSpaces(content), Strip(content);
    StripSlice(content);
    StripEmpty(content);
    assert !IsSpace(content[i]);
    assert s != [];
    assert content[n] == s[0];
    assert n == i;
    var e := n + |s|;
    assert content[e - 1] == s[|s| - 1];
    assert e - 1 == j;
    assert s[0] == '{' && s[|s| - 1] == '}';
    assert s[..1] == "{";
    assert s[|s| - 1..] == "}";
  }

  // --------------------------------------------------------------- the file

  /** The text `translate_js_file` writes, or `None` where it writes nothing: no
      entry was found, or the rebuild raised and the error was caught. */
  function TranslatedFile(content: string, ms: seq<ObjectMatch>, ps: seq<PairMatch>,
                          translateBatch: BatchOracle, translate: ItemOracle): Option<string> {
    var parsed := Extracted(ms, ps);
    if parsed == [] then None
    else
      match TranslateNested(parsed, translateBatch, translate)
      case None => None
      case Some(translated) => Some(JsContent(translated, 2, WrapWithBraces(content), IncludeExportDefault(content)))
  }

  /** `translate_js_file` (translate.py:169-206) once the file is read: `ms` and
      `ps` are what the two patterns find in `content`. */
  method TranslateJsFile(content: string, ms: seq<ObjectMatch>, ps: seq<PairMatch>,
                         translateBatch: BatchOracle, translate: ItemOracle)
    returns (written: Option<string>)
    ensures written == TranslatedFile(content, ms, ps, translateBatch, translate)
  {
    var parsedContent := ExtractNestedContent(ms, ps);
    if parsedContent == [] {
      return None;
    }
    var translatedContent := TranslateNestedContent(parsedContent, translateBatch, translate);
    if translatedContent.None? {
      return None;
    }
    var wrapWithBraces := WrapWithBraces(content);
    var includeExportDefault := IncludeExportDefault(content);
    var finalContent := GenerateJsContent(translatedContent.value, 2, wrapWithBraces, includeExportDefault);
    return Some(finalContent);
  }

  /** With a translator whose batch call answers every batch with one text per
      text, a file is written exactly when some entry was found. */
  lemma WrittenWhenFound(content: string, ms: seq<ObjectMatch>, ps: seq<PairMatch>,
                         translateBatch: BatchOracle, translate: ItemOracle)
    requires forall b :: translateBatch(b).Some? ==> |translateBatch(b).value| == |b|
    ensures TranslatedFile(content, ms, ps, translateBatch, translate).Some? <==> Extracted(ms, ps) != []
  {
    ExtractedWellFormed(ms, ps);
    if Extracted(ms, ps) != [] {
      TranslateNestedShape(Extracted(ms, ps), translateBatch, translate);
    }
  }

  /** The written file opens with `export default {` exactly when the source
      holds `export default`, else with `{` exactly when the source is wrapped
      in braces, and closes with `}` exactly when either holds. */
  lemma WrittenFraming(content: string, ms: seq<ObjectMatch>, ps: seq<PairMatch>,
                       translateBatch: BatchOracle, translate: ItemOracle)
    requires TranslatedFile(content, ms, ps, translateBatch, translate).Some?
    ensures var lines := Split(TranslatedFile(content, ms, ps, translateBatch, translate).value, '\n');
            && (lines[0] == "export default {" <==> IncludeExportDefault(content))
            && (lines[0] == "{" <==> WrapWithBraces(content) && !IncludeExportDefault(content))
            && (lines[|lines| - 1] == "}" <==> WrapWithBraces(content) || IncludeExportDefault(content))
  {
    var translated := TranslateNested(Extracted(ms, ps), translateBatch, translate).value;
    FirstLastLines(translated, 2, WrapWithBraces(content), IncludeExportDefault(content));
  }

  /** With a batch call that returns its input, the file written is the parsed
      content itself, when its leaf keys are distinct and no leaf holds
      `PLACEHOLDER_` or more than ten placeholders. */
  lemma IdentityFile(content: string, ms: seq<ObjectMatch>, ps: seq<PairMatch>,
                     translateBatch: BatchOracle, translate: ItemOracle)
    requires Extracted(ms, ps) != []
    requires Distinct(Keys(Leaves(Extracted(ms, ps))))
    requires forall i :: 0 <= i < |Leaves(Extracted(ms, ps))| ==> FreeOfMarkers(Leaves(Extracted(ms, ps))[i].1)
    requires forall i :: 0 <= i < |Leaves(Extracted(ms, ps))| ==> |Scan(Leaves(Extracted(ms, ps))[i].1).tokens| <= 10
    requires forall b :: translateBatch(b) == Some(b)
    ensures TranslatedFile(content, ms, ps, translateBatch, translate)
         == Some(JsContent(Extracted(ms, ps), 2, WrapWithBraces(content), IncludeExportDefault(content)))
  {
    ExtractedWellFormed(ms, ps);
    IdentityRoundTrip(Extracted(ms, ps), translateBatch, translate);
  }
}
