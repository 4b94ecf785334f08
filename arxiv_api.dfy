/** `ArxivDownloader`: the clean-up of a paper title into a file name and
    the name under which a search result is saved. */
module ArxivApi {
  import opened Text

  /** The characters `\ / * ? : " < > |` that a file name may not hold. */
  predicate IsIllegal(c: char) {
    c == '\\' || c == '/' || c == '*' || c == '?' || c == ':' || c == '"' || c == '<' || c == '>' || c == '|'
  }

  predicate NoIllegal(s: string) {
    forall i | 0 <= i < |s| :: !IsIllegal(s[i])
  }

  /** The substitution of `sanitize_filename` that deletes every illegal
      character: the other characters, in order. */
  function DeleteIllegal(s: string): (r: string)
    ensures |r| <= |s|
    ensures NoIllegal(r)
  {
    if s == [] then []
    else (if IsIllegal(s[0]) then [] else [s[0]]) + DeleteIllegal(s[1..])
  }

  /** A string with no illegal character is kept whole. */
  lemma {:induction false} DeleteIllegalKeepsClean(s: string)
    requires NoIllegal(s)
    ensures DeleteIllegal(s) == s
  {
    if s != [] {
      DeleteIllegalKeepsClean(s[1..]);
    }
  }

  /** The deletion works character by character: on a concatenation it is the
      concatenation of the deletions. */
  lemma {:induction false} DeleteIllegalConcat(a: string, b: string)
    ensures DeleteIllegal(a + b) == DeleteIllegal(a) + DeleteIllegal(b)
  {
    if a == [] {
      assert a + b == b;
    } else {
      var head := if IsIllegal(a[0]) then [] else [a[0]];
      assert DeleteIllegal(a + b) == head + DeleteIllegal(a[1..] + b) by {
        assert (a + b)[0] == a[0] && (a + b)[1..] == a[1..] + b;
      }
      DeleteIllegalConcat(a[1..], b);
      assert head + (DeleteIllegal(a[1..]) + DeleteIllegal(b)) == (head + DeleteIllegal(a[1..])) + DeleteIllegal(b);
    }
  }

  /** An illegal character on its own is deleted. */
  lemma DeleteIllegalDrops(c: char)
    requires IsIllegal(c)
    ensures DeleteIllegal([c]) == []
  {
  }

  /** One character in context: an illegal one disappears and its two sides
      are joined; any other stays, in its place, between the deletions of its
      two sides. With DeleteIllegalKeepsClean this fixes the result on every
      input: the illegal characters are deleted and the others kept in order. */
  lemma DeleteIllegalAround(a: string, c: char, b: string)
    ensures IsIllegal(c) ==> DeleteIllegal(a + [c] + b) == DeleteIllegal(a) + DeleteIllegal(b)
    ensures !IsIllegal(c) ==> DeleteIllegal(a + [c] + b) == DeleteIllegal(a) + [c] + DeleteIllegal(b)
  {
    var x, z := DeleteIllegal(a), DeleteIllegal(b);
    ConcatAssoc(a, [c], b);
    DeleteIllegalConcat(a, [c] + b);
    DeleteIllegalConcat([c], b);
    DeleteIllegalSingle(c);
    if !IsIllegal(c) {
      ConcatAssoc(x, [c], z);
    }
  }

  lemma DeleteIllegalSingle(c: char)
    ensures DeleteIllegal([c]) == if IsIllegal(c) then [] else [c]
  {
    assert [c][1..] == [];
  }

  /** `sanitize_filename`: delete the illegal characters, then strip. The
      result holds no illegal character, has no whitespace at either end, and
      is not longer than the input. */
  function SanitizeFilename(s: string): (r: string)
    ensures |r| <= |s|
    ensures NoIllegal(r)
    ensures r == [] || (!IsSpace(r[0]) && !IsSpace(r[|r| - 1]))
  {
    var d := DeleteIllegal(s);
    var r := Strip(d);
    StripKeeps(d, c => !IsIllegal(c));
    r
  }

  /** Sanitizing a sanitized name changes nothing. */
  lemma SanitizeIdempotent(s: string)
    ensures SanitizeFilename(SanitizeFilename(s)) == SanitizeFilename(s)
  {
    var r := SanitizeFilename(s);
    DeleteIllegalKeepsClean(r);
    StripOfTrimmed(r);
  }

  /** A name with no illegal character and no whitespace at either end is
      kept as it is. */
  lemma SanitizeKeepsCleanNames(s: string)
    requires NoIllegal(s) && (s == [] || (!IsSpace(s[0]) && !IsSpace(s[|s| - 1])))
    ensures SanitizeFilename(s) == s
  {
    DeleteIllegalKeepsClean(s);
    StripOfTrimmed(s);
  }

  /** `entry_id.split("/")[-1]`: the part after the last `/`, or the whole
      id when it has none. */
  function ArxivId(entryId: string): (r: string)
    ensures |r| <= |entryId| && r == entryId[|entryId| - |r|..]
    ensures '/' !in r
    ensures |r| < |entryId| ==> entryId[|entryId| - |r| - 1] == '/'
  {
    if entryId == [] then []
    else if entryId[|entryId| - 1] == '/' then []
    else ArxivId(entryId[..|entryId| - 1]) + [entryId[|entryId| - 1]]
  }

  /** `f"{arxiv_id} - {title}.pdf"` for a search result. */
  function DownloadFileName(entryId: string, title: string): string {
    ArxivId(entryId) + " - " + SanitizeFilename(title) + ".pdf"
  }

  /** The name under which a result is saved is one path component: it holds
      no `/`, so joining it to the download directory stays in that
      directory. */
  lemma DownloadFileNameNoSlash(entryId: string, title: string)
    ensures '/' !in DownloadFileName(entryId, title)
  {
    var id := ArxivId(entryId);
    var t := SanitizeFilename(title);
    NoIllegalNoSlash(t);
    NotInConcat('/', id, " - ");
    NotInConcat('/', id + " - ", t);
    NotInConcat('/', id + " - " + t, ".pdf");
  }

  lemma NoIllegalNoSlash(t: string)
    requires NoIllegal(t)
    ensures '/' !in t
  {
    forall i | 0 <= i < |t| ensures t[i] != '/' {
      assert !IsIllegal(t[i]);
    }
  }

  /** The name starts with the arXiv id and ends in `.pdf`. */
  lemma DownloadFileNameEnds(entryId: string, title: string)
    ensures var name := DownloadFileName(entryId, title);
            var id := ArxivId(entryId);
            && |name| >= |id| + 7
            && name[..|id|] == id
            && name[|name| - 4..] == ".pdf"
  {
    var id := ArxivId(entryId);
    var dash := id + " - ";
    var front := dash + SanitizeFilename(title);
    PrefixOfConcat(front, ".pdf", |id|);
    PrefixOfConcat(dash, SanitizeFilename(title), |id|);
    PrefixOfConcat(id, " - ", |id|);
    assert id[..|id|] == id;
    SuffixOfConcat(front, ".pdf");
  }

  /** The id of an abstract URL is its last path segment. */
  lemma ArxivIdExample()
    ensures ArxivId("http://arxiv.org/abs/2101.00001v1") == "2101.00001v1"
  {
    var e := "http://arxiv.org/abs/2101.00001v1";
    assert e == "http://arxiv.org/abs" + "/" + "2101.00001v1";
    ArxivIdAfterSlash("http://arxiv.org/abs", "2101.00001v1");
  }

  /** The id of `prefix + "/" + id` is `id`, whatever the prefix, when `id`
      has no `/`. */
  lemma ArxivIdAfterSlash(prefix: string, id: string)
    requires '/' !in id
    ensures ArxivId(prefix + "/" + id) == id
  {
    var e := prefix + "/" + id;
    var r := ArxivId(e);
    assert e[|prefix|] == '/';
    assert e[|prefix| + 1..] == id;
  }
}
