/**
 * The naming rules of the document provisioning and the ad append (utils.py):
 * the name of a case's document, the customer folder a case belongs to, and the
 * name of one ad block.
 */
module Naming {

  /** What `ensure_doc_exists_and_share` appends to a case id to name its document. */
  const DocSuffix: string := "_meta廣告上刊文件"

  /** The separator line that opens and closes every appended ad block. */
  const Rule: string := "--------------------------------------------------"

  /** The name of the document that holds the ads of case `caseId`. */
  function DocName(caseId: string): (r: string)
    ensures |r| == |caseId| + |DocSuffix|
    ensures r[..|caseId|] == caseId && r[|caseId|..] == DocSuffix
  {
    caseId + DocSuffix
  }

  /** Different cases never share a document name. */
  lemma DocNameInjective(a: string, b: string)
    requires DocName(a) == DocName(b)
    ensures a == b
  {
    assert |a| == |b|;
    assert a == DocName(a)[..|a|];
  }

  /** Python's `s.split("_")[0]`: the text before the first `_`, or all of `s` when it has none. */
  function FirstSegment(s: string): (r: string)
    ensures r <= s
    ensures '_' !in r
    ensures |r| == |s| || s[|r|] == '_'
  {
    if s == [] || s[0] == '_' then [] else [s[0]] + FirstSegment(s[1..])
  }

  /** The name of the customer folder that a new document of case `caseId` is put in. */
  function FolderName(caseId: string): (r: string)
    ensures r <= caseId && '_' !in r
    ensures '_' !in caseId ==> r == caseId
    ensures '_' in caseId ==> |r| < |caseId| && caseId[|r|] == '_'
  {
    if '_' in caseId then FirstSegment(caseId) else caseId
  }

  /** The folder of a case id that starts with `p` and then `_` is `p`, whatever follows. */
  lemma FolderNameOfPrefixed(p: string, rest: string)
    requires '_' !in p
    ensures FolderName(p + "_" + rest) == p
  {
    var s := p + "_" + rest;
    var r := FolderName(s);
    assert s[|p|] == '_';
    assert forall i :: 0 <= i < |p| ==> s[i] == p[i] && p[i] in p;
    assert r == s[..|p|] == p;
  }

  /** Two case ids that agree up to and including their first `_` route to the same folder. */
  lemma SharedPrefixSameFolder(a: string, b: string, p: string)
    requires '_' !in p
    requires p + "_" <= a && p + "_" <= b
    ensures FolderName(a) == p == FolderName(b)
  {
    var n := |p| + 1;
    assert a == (p + "_") + a[n..];
    assert b == (p + "_") + b[n..];
    FolderNameOfPrefixed(p, a[n..]);
    FolderNameOfPrefixed(p, b[n..]);
  }

  /** The two branches of the source agree: the folder is always `split("_")[0]`. */
  lemma FolderNameIsFirstSegment(caseId: string)
    ensures FolderName(caseId) == FirstSegment(caseId)
  {
  }

  /** The submitted ad fields, each already turned into the text Python's f-string shows. */
  type AdData = map<string, string>

  /** `f"{ad_data.get(key)}"`: the field's text, or "None" when the key is missing. */
  function Field(ad: AdData, key: string): (r: string)
    ensures key in ad ==> r == ad[key]
    ensures key !in ad ==> r == "None"
  {
    if key in ad then ad[key] else "None"
  }

  /** The name of one ad block, returned by `append_ad_data_to_doc`. */
  function BlockName(ad: AdData): (r: string)
    ensures |r| == |Field(ad, "ad_name_id")| + 1 + |Field(ad, "image_name_id")|
    ensures Field(ad, "ad_name_id") <= r && r[|Field(ad, "ad_name_id")|] == '_'
    ensures r[|Field(ad, "ad_name_id")| + 1..] == Field(ad, "image_name_id")
  {
    Field(ad, "ad_name_id") + "_" + Field(ad, "image_name_id")
  }

  /** A block name splits back into its two ids when the ad id has no `_`. */
  lemma BlockNameSplits(ad: AdData)
    requires '_' !in Field(ad, "ad_name_id")
    ensures FirstSegment(BlockName(ad)) == Field(ad, "ad_name_id")
    ensures BlockName(ad)[|Field(ad, "ad_name_id")| + 1..] == Field(ad, "image_name_id")
  {
    var a, i := Field(ad, "ad_name_id"), Field(ad, "image_name_id");
    FolderNameOfPrefixed(a, i);
    FolderNameIsFirstSegment(a + "_" + i);
    assert BlockName(ad) == a + "_" + i;
  }

  /** The opening of an ad block: two blank lines, a rule and the block-name line. */
  function BlockHead(ad: AdData): string {
    "\n\n" + Rule + "\n" + "廣告組合 ID: " + BlockName(ad) + "\n"
  }

  /** The lines of an ad block between its block-name line and its closing rule. */
  function BlockFields(ad: AdData): string {
    "填寫時間: " + Field(ad, "fill_time") + "\n"
    + "廣告名稱/編號: " + Field(ad, "ad_name_id") + "\n"
    + "對應圖片名稱/編號: " + Field(ad, "image_name_id") + "\n"
    + "對應圖片雲端網址: " + Field(ad, "image_url") + "\n"
    + "廣告標題: " + Field(ad, "headline") + "\n"
    + "廣告主文案:\n" + Field(ad, "main_copy") + "\n"
    + "廣告到達網址: " + Field(ad, "landing_url") + "\n"
  }

  /** The text block `append_ad_data_to_doc` writes for one ad: it opens with two blank lines, a
      rule and its block-name line, and closes with a rule. */
  function FormatBlock(ad: AdData): (r: string)
    ensures "\n\n" + Rule + "\n" + "廣告組合 ID: " + BlockName(ad) + "\n" <= r
    ensures r[|r| - |Rule| - 1..] == Rule + "\n"
  {
    Framed(BlockHead(ad), BlockFields(ad), Rule + "\n");
    BlockHead(ad) + BlockFields(ad) + (Rule + "\n")
  }

  /** A text made of a head, a body and a tail starts with the head and ends with the tail. */
  lemma Framed(head: string, body: string, tail: string)
    ensures head <= head + body + tail
    ensures (head + body + tail)[|head + body + tail| - |tail|..] == tail
  {
    var r := head + body + tail;
    assert r == head + (body + tail);
    assert r[|r| - |tail|..] == tail;
  }

  /** The worked example: case "NIKE_2024" is filed in folder "NIKE"... */
  lemma NikeFolder()
    ensures FolderName("NIKE_2024") == "NIKE"
  {
    assert '_' !in "NIKE" by {
      assert forall i :: 0 <= i < 4 ==> "NIKE"[i] != '_';
    }
    FolderNameOfPrefixed("NIKE", "2024");
    assert "NIKE" + "_" + "2024" == "NIKE_2024";
  }

  /** ...in a document named "NIKE_2024_meta廣告上刊文件"... */
  lemma NikeDocument()
    ensures DocName("NIKE_2024") == "NIKE_2024_meta廣告上刊文件"
  {
  }

  /** ...and ad "A01" with image "Pic01" is block "A01_Pic01". */
  lemma NikeBlock()
    ensures BlockName(map["ad_name_id" := "A01", "image_name_id" := "Pic01"]) == "A01_Pic01"
  {
    var ad: AdData := map["ad_name_id" := "A01", "image_name_id" := "Pic01"];
    assert Field(ad, "ad_name_id") == "A01";
    assert Field(ad, "image_name_id") == "Pic01";
  }
}
