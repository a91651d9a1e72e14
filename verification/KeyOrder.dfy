/** Name and key comparison: bootx/fs/HFSCompare.c and the Compare functions of bootx/fs/hfs.c. */
module KeyOrder {

  /** Lexicographic comparison, a proper prefix being smaller: the order behind every comparator. */
  function Lex(a: seq<int>, b: seq<int>): (r: int)
    ensures r == -1 || r == 0 || r == 1
  {
    if a == [] then (if b == [] then 0 else -1)
    else if b == [] then 1
    else if a[0] < b[0] then -1
    else if a[0] > b[0] then 1
    else Lex(a[1..], b[1..])
  }

  lemma {:induction false} LexEqual(a: seq<int>, b: seq<int>)
    ensures Lex(a, b) == 0 <==> a == b
  {
    if a != [] && b != [] {
      LexEqual(a[1..], b[1..]);
      assert a == [a[0]] + a[1..] && b == [b[0]] + b[1..];
    }
  }

  lemma {:induction false} LexReverse(a: seq<int>, b: seq<int>)
    ensures Lex(b, a) == -Lex(a, b)
  {
    if a != [] && b != [] {
      LexReverse(a[1..], b[1..]);
    }
  }

  lemma {:induction false} LexTransitive(a: seq<int>, b: seq<int>, c: seq<int>)
    requires Lex(a, b) <= 0 && Lex(b, c) <= 0
    ensures Lex(a, c) <= 0
    ensures Lex(a, b) < 0 || Lex(b, c) < 0 ==> Lex(a, c) < 0
  {
    if a != [] && b != [] && c != [] && a[0] == b[0] == c[0] {
      LexTransitive(a[1..], b[1..], c[1..]);
    }
  }

  lemma {:induction false} LexPrefix(p: seq<int>, a: seq<int>, b: seq<int>)
    ensures Lex(p + a, p + b) == Lex(a, b)
  {
    if p == [] {
      assert p + a == a && p + b == b;
    } else {
      assert (p + a)[1..] == p[1..] + a && (p + b)[1..] == p[1..] + b;
      LexPrefix(p[1..], a, b);
    }
  }

  /** A character map: gCompareTable, or the folding done with gLowerCaseTable. */
  type Table = nat -> nat

  function Words(t: Table, s: seq<nat>): (r: seq<int>)
    ensures |r| == |s|
    ensures forall i :: 0 <= i < |s| ==> r[i] == t(s[i])
  {
    if s == [] then [] else [t(s[0])] + Words(t, s[1..])
  }

  /** FastRelString: case-insensitive comparison of two counted byte strings. */
  method FastRelString(t: Table, str1: seq<nat>, str2: seq<nat>) returns (r: int)
    ensures r == Lex(Words(t, str1), Words(t, str2))
  {
    var length := |str1|;
    var bestGuess := 0;
    if |str1| < |str2| {
      bestGuess := -1;
    } else if |str1| > |str2| {
      bestGuess := 1;
      length := |str2|;
    }
    var i := 0;
    while i < length
      invariant 0 <= i <= length
      invariant Lex(Words(t, str1), Words(t, str2)) == Lex(Words(t, str1[i..]), Words(t, str2[i..]))
    {
      var aChar, bChar := str1[i], str2[i];
      assert str1[i..][0] == aChar && str2[i..][0] == bChar;
      assert str1[i..][1..] == str1[i + 1..] && str2[i..][1..] == str2[i + 1..];
      WordsStep(t, str1[i..]);
      WordsStep(t, str2[i..]);
      if aChar != bChar {
        var aSortWord, bSortWord := t(aChar), t(bChar);
        if aSortWord > bSortWord {
          return 1;
        }
        if aSortWord < bSortWord {
          return -1;
        }
      }
      i := i + 1;
    }
    r := bestGuess;
  }

  lemma WordsStep(t: Table, s: seq<nat>)
    requires s != []
    ensures Words(t, s)[0] == t(s[0]) && Words(t, s)[1..] == Words(t, s[1..])
  {
  }

  /** A Unicode name folded, the ignorable characters (folded to 0) left out. */
  function Folded(t: Table, s: seq<nat>): (r: seq<int>)
    ensures forall i :: 0 <= i < |r| ==> r[i] > 0
  {
    if s == [] then []
    else if t(s[0]) == 0 then Folded(t, s[1..])
    else [t(s[0])] + Folded(t, s[1..])
  }

  /** The inner loops of FastUnicodeCompare: the next character that is not ignorable, or 0. */
  method NextChar(t: Table, str: seq<nat>, pos: nat) returns (c: nat, pos': nat)
    requires pos <= |str|
    ensures pos <= pos' <= |str|
    ensures c == 0 ==> Folded(t, str[pos..]) == [] && pos' == |str|
    ensures c != 0 ==> Folded(t, str[pos..]) == [c] + Folded(t, str[pos'..]) && pos < pos'
  {
    c, pos' := 0, pos;
    while pos' < |str| && c == 0
      invariant pos <= pos' <= |str|
      invariant c == 0 ==> Folded(t, str[pos..]) == Folded(t, str[pos'..])
      invariant c != 0 ==> Folded(t, str[pos..]) == [c] + Folded(t, str[pos'..]) && pos < pos'
    {
      assert str[pos'..][0] == str[pos'] && str[pos'..][1..] == str[pos' + 1..];
      c := t(str[pos']);
      pos' := pos' + 1;
    }
  }

  /** FastUnicodeCompare: lexicographic comparison of the folded names. */
  method FastUnicodeCompare(t: Table, str1: seq<nat>, str2: seq<nat>) returns (r: int)
    ensures r == Lex(Folded(t, str1), Folded(t, str2))
  {
    var c1, c2: nat := 0, 0;
    var i, j := 0, 0;
    assert str1[0..] == str1 && str2[0..] == str2;
    while true
      invariant i <= |str1| && j <= |str2|
      invariant Lex(Folded(t, str1), Folded(t, str2)) == Lex(Folded(t, str1[i..]), Folded(t, str2[j..]))
      decreases |str1| - i
    {
      ghost var f1, f2 := Folded(t, str1[i..]), Folded(t, str2[j..]);
      c1, i := NextChar(t, str1, i);
      c2, j := NextChar(t, str2, j);
      assert f1 != [] ==> f1[1..] == Folded(t, str1[i..]);
      assert f2 != [] ==> f2[1..] == Folded(t, str2[j..]);
      if c1 != c2 {
        break;
      }
      if c1 == 0 {
        return 0;
      }
    }
    r := if c1 < c2 then -1 else 1;
  }

  /** A field of 32 bits without sign. */
  type Word32 = x: int | 0 <= x < 0x1_0000_0000

  /** Its value in a long. */
  function AsLong(x: Word32): int {
    if x < 0x8000_0000 then x else x - 0x1_0000_0000
  }

  /** The comparators read parent numbers as longs. That is the order of the numbers exactly when
      both are below 2^31, or neither is. */
  lemma ParentOrder(p: Word32, q: Word32)
    ensures p != q ==> ((AsLong(p) < AsLong(q) <==> p < q) <==> (p < 0x8000_0000 <==> q < 0x8000_0000))
    ensures AsLong(p) == AsLong(q) <==> p == q
  {
  }

  /** An input on which they differ: 2^31 is taken to be below 2. */
  lemma ParentOrderDiffers()
    ensures AsLong(0x8000_0000) < AsLong(2)
  {
  }

  /** The keys of the two B-trees, for HFS and HFS+. */
  datatype Key =
    | HFSCatalogKey(parentID: Word32, name: seq<nat>)
    | HFSPlusCatalogKey(parentID: Word32, unicode: seq<nat>)
    | ExtentKey(forkType: int, fileID: int, startBlock: int)

  datatype KeyKind = HFSCatalog | HFSPlusCatalog | Extents

  function KindOf(k: Key): KeyKind {
    match k
    case HFSCatalogKey(_, _) => HFSCatalog
    case HFSPlusCatalogKey(_, _) => HFSPlusCatalog
    case ExtentKey(_, _, _) => Extents
  }

  /** The two character tables. */
  datatype Tables = Tables(compare: Table, lowerCase: Table)

  /** The numbers a key is compared by, the most significant first. */
  function Image(t: Tables, k: Key): seq<int> {
    match k
    case HFSCatalogKey(p, name) => [AsLong(p)] + Words(t.compare, name)
    case HFSPlusCatalogKey(p, name) => [AsLong(p)] + (if name == [] then [] else [0] + Folded(t.lowerCase, name))
    case ExtentKey(fork, file, block) => [file, fork, block]
  }

  /** CompareHFSCatalogKeys */
  method CompareHFSCatalogKeys(t: Tables, search: Key, trial: Key) returns (result: int)
    requires search.HFSCatalogKey? && trial.HFSCatalogKey?
    ensures result == Lex(Image(t, search), Image(t, trial))
  {
    ghost var a, b := Words(t.compare, search.name), Words(t.compare, trial.name);
    var searchParentID, trialParentID := AsLong(search.parentID), AsLong(trial.parentID);
    assert ([searchParentID] + a)[1..] == a && ([trialParentID] + b)[1..] == b;
    if searchParentID > trialParentID {
      result := 1;
    } else if searchParentID < trialParentID {
      result := -1;
    } else {
      result := FastRelString(t.compare, search.name, trial.name);
    }
  }

  /** The sign of a comparison result. */
  function Sign(r: int): int {
    if r < 0 then -1 else if r > 0 then 1 else 0
  }

  /** CompareHFSPlusCatalogKeys: an empty name is below every other name, even one that folds to nothing. */
  method CompareHFSPlusCatalogKeys(t: Tables, search: Key, trial: Key) returns (result: int)
    requires search.HFSPlusCatalogKey? && trial.HFSPlusCatalogKey?
    ensures Sign(result) == Lex(Image(t, search), Image(t, trial))
  {
    ghost var a := if search.unicode == [] then [] else [0] + Folded(t.lowerCase, search.unicode);
    ghost var b := if trial.unicode == [] then [] else [0] + Folded(t.lowerCase, trial.unicode);
    var searchParentID, trialParentID := AsLong(search.parentID), AsLong(trial.parentID);
    assert ([searchParentID] + a)[1..] == a && ([trialParentID] + b)[1..] == b;
    if searchParentID > trialParentID {
      result := 1;
    } else if searchParentID < trialParentID {
      result := -1;
    } else if |search.unicode| == 0 || |trial.unicode| == 0 {
      result := |search.unicode| - |trial.unicode|;
    } else {
      result := FastUnicodeCompare(t.lowerCase, search.unicode, trial.unicode);
      LexPrefix([0], Folded(t.lowerCase, search.unicode), Folded(t.lowerCase, trial.unicode));
    }
  }

  /** CompareHFSExtentsKeys and CompareHFSPlusExtentsKeys, which agree. */
  method CompareExtentsKeys(t: Tables, search: Key, trial: Key) returns (result: int)
    requires search.ExtentKey? && trial.ExtentKey?
    ensures result == Lex(Image(t, search), Image(t, trial))
  {
    ExtentLex(t, search, trial);
    result := -1;
    if search.fileID == trial.fileID {
      if search.forkType == trial.forkType {
        if search.startBlock == trial.startBlock {
          result := 0;
        } else if search.startBlock > trial.startBlock {
          result := 1;
        }
      } else if search.forkType > trial.forkType {
        result := 1;
      }
    } else if search.fileID > trial.fileID {
      result := 1;
    }
  }

  lemma ExtentLex(t: Tables, a: Key, b: Key)
    requires a.ExtentKey? && b.ExtentKey?
    ensures Lex(Image(t, a), Image(t, b)) ==
      if a.fileID != b.fileID then (if a.fileID < b.fileID then -1 else 1)
      else if a.forkType != b.forkType then (if a.forkType < b.forkType then -1 else 1)
      else if a.startBlock != b.startBlock then (if a.startBlock < b.startBlock then -1 else 1)
      else 0
  {
    var x, y := Image(t, a), Image(t, b);
    assert x[1..] == [a.forkType, a.startBlock] && y[1..] == [b.forkType, b.startBlock];
    assert x[1..][1..] == [a.startBlock] && y[1..][1..] == [b.startBlock];
    assert x[1..][1..][1..] == [] && y[1..][1..][1..] == [];
    LexPrefix([a.fileID], x[1..], y[1..]);
    LexPrefix([a.forkType], x[1..][1..], y[1..][1..]);
    assert a.fileID == b.fileID ==> x == [a.fileID] + x[1..] && y == [a.fileID] + y[1..];
    assert a.forkType == b.forkType ==> x[1..] == [a.forkType] + x[1..][1..] && y[1..] == [a.forkType] + y[1..][1..];
  }

  /** The comparator ReadBTreeEntry picks for its tree. */
  method CompareKeys(t: Tables, search: Key, trial: Key) returns (result: int)
    requires KindOf(search) == KindOf(trial)
    ensures Sign(result) == Compare(t, search, trial)
  {
    match KindOf(search)
    case HFSCatalog => result := CompareHFSCatalogKeys(t, search, trial);
    case HFSPlusCatalog => result := CompareHFSPlusCatalogKeys(t, search, trial);
    case Extents => result := CompareExtentsKeys(t, search, trial);
  }

  /** What all comparators compute. */
  function Compare(t: Tables, a: Key, b: Key): int {
    Lex(Image(t, a), Image(t, b))
  }

  /** The comparators are total preorders on the keys of their kind. */
  lemma ComparePreorder(t: Tables, a: Key, b: Key, c: Key)
    ensures Compare(t, a, a) == 0
    ensures Compare(t, b, a) == -Compare(t, a, b)
    ensures Compare(t, a, b) <= 0 && Compare(t, b, c) <= 0 ==> Compare(t, a, c) <= 0
    ensures Compare(t, a, b) <= 0 && Compare(t, b, c) <= 0 && (Compare(t, a, b) < 0 || Compare(t, b, c) < 0) ==>
      Compare(t, a, c) < 0
  {
    hide Lex;
    LexEqual(Image(t, a), Image(t, a));
    LexReverse(Image(t, a), Image(t, b));
    if Compare(t, a, b) <= 0 && Compare(t, b, c) <= 0 {
      LexTransitive(Image(t, a), Image(t, b), Image(t, c));
    }
  }

  /** Keys compare equal exactly when they have the same parent and their names, both or neither of
      them empty, differ in case and ignorable characters only. */
  lemma CompareEqual(t: Tables, a: Key, b: Key)
    requires a.HFSPlusCatalogKey? && b.HFSPlusCatalogKey?
    ensures Compare(t, a, b) == 0 <==>
      a.parentID == b.parentID && (a.unicode == [] <==> b.unicode == []) &&
      Folded(t.lowerCase, a.unicode) == Folded(t.lowerCase, b.unicode)
  {
    hide Lex;
    LexEqual(Image(t, a), Image(t, b));
    var x, y := Folded(t.lowerCase, a.unicode), Folded(t.lowerCase, b.unicode);
    if a.unicode != [] && b.unicode != [] && Image(t, a) == Image(t, b) {
      assert Image(t, a)[2..] == x && Image(t, b)[2..] == y;
    }
    assert Image(t, a)[0] == AsLong(a.parentID) && Image(t, b)[0] == AsLong(b.parentID);
    ParentOrder(a.parentID, b.parentID);
    assert |Image(t, a)| == if a.unicode == [] then 1 else 2 + |x|;
    assert |Image(t, b)| == if b.unicode == [] then 1 else 2 + |y|;
  }

  // ----- The orders in plain words

  /** a is a proper beginning of b, or smaller at the first place where they differ. */
  ghost predicate Less(a: seq<int>, b: seq<int>) {
    exists i: nat :: LessAt(a, b, i)
  }

  predicate LessAt(a: seq<int>, b: seq<int>, i: nat) {
    i <= |a| && i < |b| && a[..i] == b[..i] && (i == |a| || a[i] < b[i])
  }

  lemma {:induction false} LexLess(a: seq<int>, b: seq<int>)
    ensures Lex(a, b) < 0 <==> Less(a, b)
  {
    if a != [] && b != [] && a[0] == b[0] {
      LexLess(a[1..], b[1..]);
      if i: nat :| LessAt(a[1..], b[1..], i) {
        assert a[..i + 1] == [a[0]] + a[1..][..i] && b[..i + 1] == [b[0]] + b[1..][..i];
        assert LessAt(a, b, i + 1);
      }
      if i: nat :| LessAt(a, b, i) {
        assert i > 0 && a[1..][..i - 1] == a[..i][1..] && b[1..][..i - 1] == b[..i][1..];
        assert LessAt(a[1..], b[1..], i - 1);
      }
    } else {
      assert Lex(a, b) < 0 ==> LessAt(a, b, 0);
      if i: nat :| LessAt(a, b, i) {
        assert i > 0 ==> a[..i][0] == b[..i][0];
      }
    }
  }

  lemma LexCons(x: int, y: int, a: seq<int>, b: seq<int>)
    ensures Lex([x] + a, [y] + b) == if x < y then -1 else if x > y then 1 else Lex(a, b)
  {
    assert ([x] + a)[1..] == a && ([y] + b)[1..] == b;
  }

  /** The last character of a name counts as its map says, or not at all. */
  lemma {:induction false} FoldedSnoc(t: Table, s: seq<nat>, c: nat)
    ensures Folded(t, []) == [] && Folded(t, s + [c]) == Folded(t, s) + if t(c) == 0 then [] else [t(c)]
  {
    if s == [] {
      assert [] + [c] == [c] && Folded(t, [c][1..]) == [];
    } else {
      assert (s + [c])[1..] == s[1..] + [c];
      FoldedSnoc(t, s[1..], c);
    }
  }

  /** HFS catalog keys: the parent directory decides, then the name. */
  lemma HFSOrder(t: Tables, a: Key, b: Key)
    requires a.HFSCatalogKey? && b.HFSCatalogKey?
    ensures Compare(t, a, b) < 0 <==>
      AsLong(a.parentID) < AsLong(b.parentID) ||
      (a.parentID == b.parentID && Less(Words(t.compare, a.name), Words(t.compare, b.name)))
  {
    hide Lex, Words;
    LexCons(AsLong(a.parentID), AsLong(b.parentID), Words(t.compare, a.name), Words(t.compare, b.name));
    LexLess(Words(t.compare, a.name), Words(t.compare, b.name));
    ParentOrder(a.parentID, b.parentID);
  }

  /** HFS+ catalog keys: the parent directory decides, then the name without case and ignorable
      characters, an empty name being below all others. */
  lemma HFSPlusOrder(t: Tables, a: Key, b: Key)
    requires a.HFSPlusCatalogKey? && b.HFSPlusCatalogKey?
    ensures Compare(t, a, b) < 0 <==>
      AsLong(a.parentID) < AsLong(b.parentID) ||
      (a.parentID == b.parentID && b.unicode != [] &&
        (a.unicode == [] || Less(Folded(t.lowerCase, a.unicode), Folded(t.lowerCase, b.unicode))))
  {
    hide Lex, Folded;
    var x, y := Folded(t.lowerCase, a.unicode), Folded(t.lowerCase, b.unicode);
    LexCons(AsLong(a.parentID), AsLong(b.parentID), if a.unicode == [] then [] else [0] + x, if b.unicode == [] then [] else [0] + y);
    LexCons(0, 0, x, y);
    LexEnds([0] + x, [0] + y);
    LexLess(x, y);
    ParentOrder(a.parentID, b.parentID);
  }

  lemma LexEnds(a: seq<int>, b: seq<int>)
    requires a != [] && b != []
    ensures Lex([], b) == -1 && Lex(a, []) == 1 && Lex([], []) == 0
  {
  }

  /** Extent keys: the file decides, then the fork, then the start block. */
  lemma ExtentOrder(t: Tables, a: Key, b: Key)
    requires a.ExtentKey? && b.ExtentKey?
    ensures Compare(t, a, b) < 0 <==>
      a.fileID < b.fileID || (a.fileID == b.fileID &&
        (a.forkType < b.forkType || (a.forkType == b.forkType && a.startBlock < b.startBlock)))
  {
    hide Lex;
    ExtentLex(t, a, b);
  }
}
