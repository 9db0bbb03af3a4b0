/**
 * The upload-name filter and the artifact listing of the Flask app
 * (main.py). Directory contents are inputs: `root` is what listing the
 * upload folder returns, `tts` what listing its `tts` sub-folder returns, or
 * `None` when that sub-folder does not exist.
 */
module Uploads {
  import opened Wrappers
  import opened StringOrder

  /** The only accepted extension, compared after lowercasing. */
  const Extension: string := "wav"
  /** Synthesized clips live in this sub-folder and are listed with this prefix. */
  const TtsPrefix: string := "tts/"

  /** ASCII lowercasing of one character. */
  function LowerChar(c: char): char {
    if 'A' <= c <= 'Z' then (c as int + 32) as char else c
  }

  /** `s.lower()`, letter by letter. */
  function Lower(s: string): string {
    seq(|s|, i requires 0 <= i < |s| => LowerChar(s[i]))
  }

  /** A string lowercases to the extension exactly when it spells `wav` in any mix of cases. */
  lemma LowerIsExtension(s: string)
    ensures Lower(s) == Extension <==>
      |s| == 3 && (s[0] == 'w' || s[0] == 'W') && (s[1] == 'a' || s[1] == 'A') && (s[2] == 'v' || s[2] == 'V')
  {
    if |s| == 3 && (s[0] == 'w' || s[0] == 'W') && (s[1] == 'a' || s[1] == 'A') && (s[2] == 'v' || s[2] == 'V') {
      assert Lower(s) == [Lower(s)[0], Lower(s)[1], Lower(s)[2]];
    }
    if Lower(s) == Extension {
      assert Lower(s)[0] == 'w' && Lower(s)[1] == 'a' && Lower(s)[2] == 'v';
    }
  }

  /** `s.rsplit('.', 1)[1]`: the text after the last dot. */
  function AfterLastDot(s: string): string
    requires '.' in s
  {
    assert s == s[..|s| - 1] + [s[|s| - 1]];
    if s[|s| - 1] == '.' then "" else AfterLastDot(s[..|s| - 1]) + [s[|s| - 1]]
  }

  /** `allowed_file`: the name has a dot and what follows the last one is `wav` in any case. */
  predicate AllowedFile(name: string) {
    '.' in name && Lower(AfterLastDot(name)) == Extension
  }

  /** The text after the last dot is the suffix that follows a dot and holds no dot itself. */
  lemma {:induction false} AfterLastDotIsLastExtension(s: string)
    requires '.' in s
    ensures var e := AfterLastDot(s);
      |e| < |s| && s[|s| - |e| - 1] == '.' && s[|s| - |e|..] == e && '.' !in e
  {
    if s[|s| - 1] != '.' {
      assert s == s[..|s| - 1] + [s[|s| - 1]];
      AfterLastDotIsLastExtension(s[..|s| - 1]);
    }
  }

  lemma AfterLastDotOfSuffix(s: string, k: nat)
    requires k < |s| && s[k] == '.' && '.' !in s[k + 1..]
    ensures AfterLastDot(s) == s[k + 1..]
  {
    AfterLastDotIsLastExtension(s);
  }

  /**
   * A name is accepted exactly when it ends in a dot followed by `w`, `a`,
   * `v` in either case.
   */
  lemma AllowedFileIff(name: string)
    ensures AllowedFile(name) <==>
      |name| >= 4 && name[|name| - 4] == '.' && Lower(name[|name| - 3..]) == Extension
  {
    if AllowedFile(name) {
      AfterLastDotIsLastExtension(name);
    }
    if |name| >= 4 && name[|name| - 4] == '.' && Lower(name[|name| - 3..]) == Extension {
      var tail := name[|name| - 3..];
      assert '.' !in tail by {
        forall i | 0 <= i < 3 ensures tail[i] != '.' {
          assert LowerChar(tail[i]) == Extension[i];
        }
      }
      AfterLastDotOfSuffix(name, |name| - 4);
    }
  }

  /** The transcript written next to a recording (its name plus `.txt`) is never listed. */
  lemma TranscriptNameRejected(name: string)
    ensures !AllowedFile(name + ".txt")
  {
    var n := name + ".txt";
    AllowedFileIff(n);
    assert n[|n| - 3..] == "txt";
    LowerIsExtension("txt");
  }

  /** The case of the extension does not matter; only the last extension counts. */
  lemma AllowedFileExamples()
    ensures AllowedFile("REC.WAV") && AllowedFile("take.2.Wav")
    ensures !AllowedFile("recording") && !AllowedFile("notes.txt") && !AllowedFile("X.wav.txt")
    ensures !AllowedFile("wav") && !AllowedFile("X.wave")
  {
    AllowedFileIff("REC.WAV");
    AllowedFileIff("take.2.Wav");
    AllowedFileIff("recording");
    AllowedFileIff("notes.txt");
    assert "notes.txt"[6..] == "txt";
    LowerIsExtension("txt");
    TranscriptNameRejected("X.wav");
    assert "X.wav" + ".txt" == "X.wav.txt";
    AllowedFileIff("wav");
    AllowedFileIff("X.wave");
  }

  /** The accepted names in listing order, as the loops append them. */
  function Allowed(names: seq<string>): seq<string> {
    if names == [] then []
    else
      var last := names[|names| - 1];
      Allowed(names[..|names| - 1]) + (if AllowedFile(last) then [last] else [])
  }

  /** Filtering keeps each accepted name as often as it occurs and drops every other one. */
  lemma {:induction false} AllowedCount(names: seq<string>, x: string)
    ensures multiset(Allowed(names))[x] == if AllowedFile(x) then multiset(names)[x] else 0
  {
    if names != [] {
      var init, last := names[..|names| - 1], names[|names| - 1];
      AllowedCount(init, x);
      assert names == init + [last];
    }
  }

  lemma AllowedMembers(names: seq<string>, x: string)
    ensures x in Allowed(names) <==> x in names && AllowedFile(x)
  {
    AllowedCount(names, x);
    assert x in Allowed(names) <==> x in multiset(Allowed(names));
    assert x in names <==> x in multiset(names);
  }

  /** The clip names, each with the `tts/` prefix. */
  function Prefixed(names: seq<string>): seq<string> {
    seq(|names|, i requires 0 <= i < |names| => TtsPrefix + names[i])
  }

  /** The tts group before sorting: the accepted clip names, prefixed; nothing when the folder is missing. */
  function TtsEntries(tts: Option<seq<string>>): seq<string> {
    match tts
    case None => []
    case Some(names) => Prefixed(Allowed(names))
  }

  predicate HasTtsPrefix(s: string) {
    |s| >= |TtsPrefix| && s[..|TtsPrefix|] == TtsPrefix
  }

  /**
   * What `get_files` returns: the accepted root names in non-increasing
   * order, followed by the tts entries in non-increasing order.
   */
  predicate IsListing(root: seq<string>, tts: Option<seq<string>>, listing: seq<string>) {
    var files := Allowed(root);
    |listing| == |files| + |TtsEntries(tts)|
    && SortsDescending(files, listing[..|files|])
    && SortsDescending(TtsEntries(tts), listing[|files|..])
  }

  /** `get_files` over the two directory listings. */
  method GetFiles(root: seq<string>, tts: Option<seq<string>>) returns (listing: seq<string>)
    ensures IsListing(root, tts, listing)
  {
    var files: seq<string> := [];
    var ttsFiles: seq<string> := [];
    for i := 0 to |root|
      invariant files == Allowed(root[..i])
    {
      assert root[..i + 1][..i] == root[..i];
      if AllowedFile(root[i]) {
        files := files + [root[i]];
      }
    }
    assert root[..|root|] == root;
    if tts.Some? {
      var names := tts.value;
      for i := 0 to |names|
        invariant ttsFiles == Prefixed(Allowed(names[..i]))
      {
        assert names[..i + 1][..i] == names[..i];
        if AllowedFile(names[i]) {
          ttsFiles := ttsFiles + [TtsPrefix + names[i]];
        }
      }
      assert names[..|names|] == names;
    }
    var sortedFiles := SortDescending(files);
    var sortedTts := SortDescending(ttsFiles);
    assert |sortedFiles| == |multiset(files)| && |sortedTts| == |multiset(ttsFiles)|;
    listing := sortedFiles + sortedTts;
    assert listing[..|files|] == sortedFiles && listing[|files|..] == sortedTts;
  }

  /** Python's `list.sort(reverse=True)` (Timsort) and the insertion sort above give the same listing. */
  lemma ListingUnique(root: seq<string>, tts: Option<seq<string>>, l1: seq<string>, l2: seq<string>)
    requires IsListing(root, tts, l1) && IsListing(root, tts, l2)
    ensures l1 == l2
  {
    var k := |Allowed(root)|;
    SortedPermutationUnique(l1[..k], l2[..k]);
    SortedPermutationUnique(l1[k..], l2[k..]);
    assert l1 == l1[..k] + l1[k..] && l2 == l2[..k] + l2[k..];
  }

  lemma PrefixedMembers(names: seq<string>, x: string)
    ensures x in Prefixed(names) <==> exists m :: m in names && x == TtsPrefix + m
  {
    if x in Prefixed(names) {
      var i :| 0 <= i < |names| && Prefixed(names)[i] == x;
      assert names[i] in names;
    }
    if exists m :: m in names && x == TtsPrefix + m {
      var m :| m in names && x == TtsPrefix + m;
      var i :| 0 <= i < |names| && names[i] == m;
      assert Prefixed(names)[i] == x;
    }
  }

  /**
   * Nothing is added and nothing is dropped: the listing holds each accepted
   * root name and each prefixed accepted clip name, as often as the
   * directories hold them.
   */
  lemma ListingContents(root: seq<string>, tts: Option<seq<string>>, listing: seq<string>)
    requires IsListing(root, tts, listing)
    ensures multiset(listing) == multiset(Allowed(root)) + multiset(TtsEntries(tts))
    ensures forall x :: x in listing <==>
      (x in root && AllowedFile(x))
      || (tts.Some? && exists m :: m in tts.value && AllowedFile(m) && x == TtsPrefix + m)
  {
    var k := |Allowed(root)|;
    assert listing == listing[..k] + listing[k..];
    forall x
      ensures x in listing <==>
        (x in root && AllowedFile(x))
        || (tts.Some? && exists m :: m in tts.value && AllowedFile(m) && x == TtsPrefix + m)
    {
      assert x in listing <==> x in multiset(listing);
      assert x in Allowed(root) <==> x in multiset(Allowed(root));
      assert x in TtsEntries(tts) <==> x in multiset(TtsEntries(tts));
      AllowedMembers(root, x);
      if tts.Some? {
        var names := tts.value;
        PrefixedMembers(Allowed(names), x);
        forall m ensures m in Allowed(names) <==> m in names && AllowedFile(m) {
          AllowedMembers(names, m);
        }
      }
    }
  }

  /**
   * When no directory entry of the upload root holds a `/` (as no file name
   * can), exactly the entries from position |accepted root names| on carry
   * the `tts/` prefix: every root entry comes before every tts entry.
   */
  lemma ListingRootBeforeTts(root: seq<string>, tts: Option<seq<string>>, listing: seq<string>)
    requires IsListing(root, tts, listing)
    requires forall n :: n in root ==> '/' !in n
    ensures forall i :: 0 <= i < |listing| ==> (HasTtsPrefix(listing[i]) <==> i >= |Allowed(root)|)
    ensures forall i, j :: 0 <= i < j < |listing| && HasTtsPrefix(listing[i]) ==> HasTtsPrefix(listing[j])
  {
    var k := |Allowed(root)|;
    forall i | 0 <= i < |listing|
      ensures HasTtsPrefix(listing[i]) <==> i >= k
    {
      var x := listing[i];
      if i < k {
        assert x == listing[..k][i];
        assert x in multiset(Allowed(root));
        AllowedMembers(root, x);
        if HasTtsPrefix(x) {
          TtsPrefixHasSlash(x);
          assert false;
        }
      } else {
        assert x == listing[k..][i - k];
        assert x in multiset(TtsEntries(tts));
        var m :| 0 <= m < |TtsEntries(tts)| && TtsEntries(tts)[m] == x;
        assert x[..|TtsPrefix|] == TtsPrefix;
      }
    }
  }

  lemma TtsPrefixHasSlash(x: string)
    requires HasTtsPrefix(x)
    ensures '/' in x
  {
    assert x[3] == x[..|TtsPrefix|][3] == '/';
  }

  /** With no `tts` folder the listing is the accepted root names, sorted descending, and nothing else. */
  lemma ListingWithoutTtsFolder(root: seq<string>, listing: seq<string>)
    requires IsListing(root, None, listing)
    ensures SortsDescending(Allowed(root), listing)
    ensures (forall n :: n in root ==> '/' !in n) ==> forall i :: 0 <= i < |listing| ==> !HasTtsPrefix(listing[i])
  {
    assert listing[..|Allowed(root)|] == listing;
    if forall n :: n in root ==> '/' !in n {
      ListingRootBeforeTts(root, None, listing);
    }
  }

  lemma {:induction false} PrefixedCount(names: seq<string>, x: string)
    ensures multiset(Prefixed(names))[x] ==
      if HasTtsPrefix(x) then multiset(names)[x[|TtsPrefix|..]] else 0
  {
    if names != [] {
      var init, last := names[..|names| - 1], names[|names| - 1];
      PrefixedCount(init, x);
      assert names == init + [last];
      assert Prefixed(names) == Prefixed(init) + [TtsPrefix + last];
      var p := TtsPrefix + last;
      assert p[..|TtsPrefix|] == TtsPrefix && p[|TtsPrefix|..] == last;
      if HasTtsPrefix(x) {
        assert x == TtsPrefix + x[|TtsPrefix|..];
      }
    }
  }

  lemma EntriesPermutation(a: seq<string>, b: seq<string>)
    requires multiset(a) == multiset(b)
    ensures multiset(Allowed(a)) == multiset(Allowed(b))
    ensures multiset(Prefixed(Allowed(a))) == multiset(Prefixed(Allowed(b)))
  {
    forall x ensures multiset(Allowed(a))[x] == multiset(Allowed(b))[x] {
      AllowedCount(a, x);
      AllowedCount(b, x);
    }
    forall x ensures multiset(Prefixed(Allowed(a)))[x] == multiset(Prefixed(Allowed(b)))[x] {
      PrefixedCount(Allowed(a), x);
      PrefixedCount(Allowed(b), x);
    }
  }

  /** The order in which the operating system lists the two folders does not affect the result. */
  lemma ListingIgnoresDirectoryOrder(root1: seq<string>, root2: seq<string>,
                                     tts1: Option<seq<string>>, tts2: Option<seq<string>>,
                                     l1: seq<string>, l2: seq<string>)
    requires multiset(root1) == multiset(root2)
    requires tts1.None? <==> tts2.None?
    requires tts1.Some? && tts2.Some? ==> multiset(tts1.value) == multiset(tts2.value)
    requires IsListing(root1, tts1, l1) && IsListing(root2, tts2, l2)
    ensures l1 == l2
  {
    EntriesPermutation(root1, root2);
    if tts1.Some? {
      EntriesPermutation(tts1.value, tts2.value);
    }
    SameGroupsSameListing(root1, root2, tts1, tts2, l1);
    ListingUnique(root2, tts2, l1, l2);
  }

  lemma SameGroupsSameListing(root1: seq<string>, root2: seq<string>,
                              tts1: Option<seq<string>>, tts2: Option<seq<string>>, l: seq<string>)
    requires multiset(Allowed(root1)) == multiset(Allowed(root2))
    requires multiset(TtsEntries(tts1)) == multiset(TtsEntries(tts2))
    requires IsListing(root1, tts1, l)
    ensures IsListing(root2, tts2, l)
  {
    assert |Allowed(root1)| == |multiset(Allowed(root1))| == |Allowed(root2)|;
    assert |TtsEntries(tts1)| == |multiset(TtsEntries(tts1))| == |TtsEntries(tts2)|;
  }

  /** Every name that ends in `.wav` is accepted. */
  lemma EndsInWavAccepted(n: string)
    requires |n| >= 4 && n[|n| - 4..] == ".wav"
    ensures AllowedFile(n)
  {
    assert n[|n| - 4] == n[|n| - 4..][0] == '.';
    assert n[|n| - 3..] == n[|n| - 4..][1..] == Extension;
    assert Lower(Extension) == Extension;
    AllowedFileIff(n);
  }

  lemma TwoAccepted(a: string, b: string)
    requires AllowedFile(a) && AllowedFile(b)
    ensures Allowed([a, b]) == [a, b]
  {
    assert [a][..0] == [];
    assert Allowed([a]) == [a];
    assert [a, b][..1] == [a];
    assert [a, b][1] == b;
  }

  /** Two accepted root names, no tts folder: the larger name comes first. */
  lemma TwoNamesListing(a: string, b: string)
    requires Allowed([a, b]) == [a, b] && Below(a, b)
    ensures IsListing([a, b], None, [b, a])
  {
    BelowAsymmetric(a, b);
    assert multiset([b, a]) == multiset([a, b]);
    assert [b, a][..2] == [b, a] && [b, a][2..] == [];
  }
}
