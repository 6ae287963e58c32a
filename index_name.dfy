/** Where LLMWorkflow._get_faiss_index_path (LLMGraphConfigurator/llmgraphbuilder.py)
    keeps the similarity index of a retrieval node: the document name without
    its extension, every character other than a word character or '-' turned
    into '_', prefixed with "faiss_", inside the script's directory. Paths
    follow POSIX (posixpath.splitext and posixpath.join). */
module IndexName {
  import opened Wrappers

  /** The ValueError raised for a retrieval node with no content */
  datatype PathError = NoDocument(id: int)

  /** The last index at which c occurs in s, or -1: str.rfind(c) */
  function RFind(s: string, c: char): (i: int)
    ensures -1 <= i < |s|
    ensures i >= 0 ==> s[i] == c
    ensures forall k :: i < k < |s| ==> s[k] != c
    decreases |s|
  {
    if |s| == 0 then -1
    else if s[|s| - 1] == c then |s| - 1
    else RFind(s[..|s| - 1], c)
  }

  /** Whether p[from..to] holds a character other than '.' */
  predicate HasNonDot(p: string, from: nat, to: nat)
    requires from <= to <= |p|
  {
    exists k :: from <= k < to && p[k] != '.'
  }

  /** os.path.splitext(p)[0] on POSIX: the text before the last '.' of the
      last path component, unless that component is only dots up to it
      (".bashrc", "..") */
  function StripExtension(p: string): (root: string)
    ensures |root| <= |p| && root == p[..|root|]
  {
    var sepIndex := RFind(p, '/');
    var dotIndex := RFind(p, '.');
    if dotIndex > sepIndex && HasNonDot(p, sepIndex + 1, dotIndex) then p[..dotIndex] else p
  }

  /** The characters of [\w\-_] for an ASCII text: letters, digits, '_' and '-' */
  predicate IsNameChar(c: char)
  {
    ('a' <= c <= 'z') || ('A' <= c <= 'Z') || ('0' <= c <= '9') || c == '_' || c == '-'
  }

  /** re.sub(r'[^\w\-_]', '_', s) */
  function Sanitize(s: string): (r: string)
    ensures |r| == |s|
    ensures forall i :: 0 <= i < |s| ==> r[i] == if IsNameChar(s[i]) then s[i] else '_'
  {
    seq(|s|, i requires 0 <= i < |s| => if IsNameChar(s[i]) then s[i] else '_')
  }

  /** The directory name of a document's index */
  function IndexDirName(document: string): string
  {
    "faiss_" + Sanitize(StripExtension(document))
  }

  /** posixpath.join(dir, name) for a name that does not start with '/' */
  function JoinPath(dir: string, name: string): (r: string)
  {
    if |dir| == 0 || dir[|dir| - 1] == '/' then dir + name else dir + "/" + name
  }

  /** _get_faiss_index_path for node id with the given content list */
  function IndexPath(scriptDir: string, id: int, content: seq<string>): (r: Result<string, PathError>)
    ensures r.Err? <==> |content| == 0
    ensures r.Err? ==> r.error == NoDocument(id)
  {
    if |content| == 0 then Err(NoDocument(id))
    else Ok(JoinPath(scriptDir, IndexDirName(content[0])))
  }

  // ---------------------------------------------------------------------------
  // Properties

  /** Every character of a sanitised name is a name character, and the
      characters that already were one are kept in place */
  lemma SanitizeOnlyNameChars(s: string)
    ensures forall c :: c in Sanitize(s) ==> IsNameChar(c)
    ensures forall i :: 0 <= i < |s| && IsNameChar(s[i]) ==> Sanitize(s)[i] == s[i]
  {
    var r := Sanitize(s);
    forall c | c in r ensures IsNameChar(c) {
      var i :| 0 <= i < |r| && r[i] == c;
    }
  }

  /** Sanitising twice is sanitising once */
  lemma SanitizeIdempotent(s: string)
    ensures Sanitize(Sanitize(s)) == Sanitize(s)
  {
  }

  /** A name made only of name characters is kept as it is */
  lemma SanitizeKeeps(s: string)
    requires forall i :: 0 <= i < |s| ==> IsNameChar(s[i])
    ensures Sanitize(s) == s
  {
  }

  /** The index directory's name holds neither '/' nor '.', so the index is a
      direct child of the script's directory whatever the document's path */
  lemma IndexDirIsChild(scriptDir: string, document: string)
    ensures '/' !in IndexDirName(document) && '.' !in IndexDirName(document)
    ensures IndexDirName(document)[..6] == "faiss_"
    ensures var p := JoinPath(scriptDir, IndexDirName(document));
      p == (if |scriptDir| == 0 || scriptDir[|scriptDir| - 1] == '/' then scriptDir else scriptDir + "/")
           + IndexDirName(document)
  {
    var s := Sanitize(StripExtension(document));
    SanitizeOnlyNameChars(StripExtension(document));
    assert IndexDirName(document) == "faiss_" + s;
    assert forall c :: c in "faiss_" + s ==> c in "faiss_" || c in s;
  }

  /** A name whose last character is neither '.' nor '/' loses exactly one
      added extension free of '.' and '/' */
  lemma {:induction false} StripAddedExtension(p: string, ext: string)
    requires |p| > 0 && p[|p| - 1] != '.' && p[|p| - 1] != '/'
    requires '.' !in ext && '/' !in ext
    ensures StripExtension(p + "." + ext) == p
  {
    var t := p + "." + ext;
    var dotIndex := RFind(t, '.');
    var sepIndex := RFind(t, '/');
    assert t[|p|] == '.';
    forall k | |p| < k < |t| ensures t[k] != '.' && t[k] != '/' {
      assert t[k] == ext[k - |p| - 1];
    }
    assert dotIndex == |p|;
    assert sepIndex < |p| - 1 by {
      assert t[|p| - 1] == p[|p| - 1];
    }
    assert HasNonDot(t, sepIndex + 1, dotIndex) by {
      assert t[|p| - 1] != '.';
    }
    assert t[..|p|] == p;
  }

  /** Two documents that differ only in their extension share one index
      directory, so the second one's retrieval loads the first one's index */
  lemma SharedIndex(p: string, ext1: string, ext2: string)
    requires |p| > 0 && p[|p| - 1] != '.' && p[|p| - 1] != '/'
    requires '.' !in ext1 && '/' !in ext1 && '.' !in ext2 && '/' !in ext2
    ensures IndexDirName(p + "." + ext1) == IndexDirName(p + "." + ext2)
  {
    StripAddedExtension(p, ext1);
    StripAddedExtension(p, ext2);
  }

  /** The index of "notes.txt" is "faiss_notes", and so is the index of "notes.md" */
  lemma SharedIndexExample()
    ensures IndexDirName("notes.txt") == "faiss_notes" == IndexDirName("notes.md")
  {
    NotesIndex("txt");
    assert "notes" + "." + "txt" == "notes.txt";
    NotesIndex("md");
    assert "notes" + "." + "md" == "notes.md";
  }

  lemma NotesIndex(ext: string)
    requires '.' !in ext && '/' !in ext
    ensures IndexDirName("notes" + "." + ext) == "faiss_notes"
  {
    var s := "notes";
    assert s[0] == 'n' && s[1] == 'o' && s[2] == 't' && s[3] == 'e' && s[4] == 's';
    StripAddedExtension(s, ext);
    SanitizeKeeps(s);
  }

  /** A dot file's leading dots are not an extension */
  lemma DotFileKeepsName()
    ensures StripExtension(".env") == ".env"
    ensures IndexDirName(".env") == "faiss__env"
  {
    var p := ".env";
    assert p[0] == '.' && p[1] == 'e' && p[2] == 'n' && p[3] == 'v';
    assert RFind(p, '/') == -1;
    assert RFind(p, '.') == 0;
    assert !HasNonDot(p, 0, 0);
  }
}
