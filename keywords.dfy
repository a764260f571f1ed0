/**
 * The fixed vocabulary of jq builtins offered after anything but a '.',
 * in the order the source lists it (already ascending, "select()" twice).
 */
module JqKeywords {
  import opened Lexicographic

  /** Written as five displays joined, only so that the verifier can index it. */
  const Keywords: seq<string> :=
    [
      "add", "all", "any", "arrays", "ascii_downcase",
      "ascii_upcase", "booleans", "bsearch()", "combinations", "contains()",
      "del()", "delpaths()", "empty", "endswith()", "error()",
      "explode", "finites", "flatten", "floor", "from_entries"
    ] +
    [
      "getpath()", "group_by()", "halt", "halt_error", "has()",
      "implode", "in", "index()", "indices()", "infinite",
      "inside", "isfinite", "isinfinite", "isnormal", "iterables",
      "join()", "keys", "keys_unsorted", "leaf_paths", "length"
    ] +
    [
      "ltrimstr()", "map()", "map_values()", "max", "max_by()",
      "min", "min_by()", "nan", "normals", "nulls",
      "numbers", "objects", "path()", "paths", "range()",
      "recurse", "recurse_down", "reverse", "rindex()", "rtrimstr()"
    ] +
    [
      "scalars", "select()", "select()", "setpath()", "sort",
      "sort_by()", "split()", "sqrt", "startswith()", "strings",
      "to_entries", "tonumber", "tostring", "transpose", "unique",
      "unique_by()", "until()", "utf8bytelength", "values", "walk()"
    ] +
    [
      "while()", "with_entries"
    ]

  // Adjacent entries are in order; one lemma per stretch keeps each proof small.
  lemma KeywordsAdjacent0(i: nat)
    requires 0 <= i < 10
    ensures LessEq(Keywords[i], Keywords[i + 1])
  {
    match i
    case 0 => LessAt(Keywords[0], Keywords[1], 1);
    case 1 => LessAt(Keywords[1], Keywords[2], 1);
    case 2 => LessAt(Keywords[2], Keywords[3], 1);
    case 3 => LessAt(Keywords[3], Keywords[4], 1);
    case 4 => LessAt(Keywords[4], Keywords[5], 6);
    case 5 => LessAt(Keywords[5], Keywords[6], 0);
    case 6 => LessAt(Keywords[6], Keywords[7], 1);
    case 7 => LessAt(Keywords[7], Keywords[8], 0);
    case 8 => LessAt(Keywords[8], Keywords[9], 2);
    case 9 => LessAt(Keywords[9], Keywords[10], 0);
  }

  lemma KeywordsAdjacent1(i: nat)
    requires 10 <= i < 20
    ensures LessEq(Keywords[i], Keywords[i + 1])
  {
    match i
    case 10 => LessAt(Keywords[10], Keywords[11], 3);
    case 11 => LessAt(Keywords[11], Keywords[12], 0);
    case 12 => LessAt(Keywords[12], Keywords[13], 1);
    case 13 => LessAt(Keywords[13], Keywords[14], 1);
    case 14 => LessAt(Keywords[14], Keywords[15], 1);
    case 15 => LessAt(Keywords[15], Keywords[16], 0);
    case 16 => LessAt(Keywords[16], Keywords[17], 1);
    case 17 => LessAt(Keywords[17], Keywords[18], 2);
    case 18 => LessAt(Keywords[18], Keywords[19], 1);
    case 19 => LessAt(Keywords[19], Keywords[20], 0);
  }

  lemma KeywordsAdjacent2(i: nat)
    requires 20 <= i < 30
    ensures LessEq(Keywords[i], Keywords[i + 1])
  {
    match i
    case 20 => LessAt(Keywords[20], Keywords[21], 1);
    case 21 => LessAt(Keywords[21], Keywords[22], 0);
    case 22 => ExtensionIsGreater(Keywords[22], Keywords[23]);
    case 23 => LessAt(Keywords[23], Keywords[24], 2);
    case 24 => LessAt(Keywords[24], Keywords[25], 0);
    case 25 => LessAt(Keywords[25], Keywords[26], 1);
    case 26 => ExtensionIsGreater(Keywords[26], Keywords[27]);
    case 27 => LessAt(Keywords[27], Keywords[28], 3);
    case 28 => LessAt(Keywords[28], Keywords[29], 2);
    case 29 => LessAt(Keywords[29], Keywords[30], 2);
  }

  lemma KeywordsAdjacent3(i: nat)
    requires 30 <= i < 40
    ensures LessEq(Keywords[i], Keywords[i + 1])
  {
    match i
    case 30 => LessAt(Keywords[30], Keywords[31], 1);
    case 31 => LessAt(Keywords[31], Keywords[32], 2);
    case 32 => LessAt(Keywords[32], Keywords[33], 2);
    case 33 => LessAt(Keywords[33], Keywords[34], 1);
    case 34 => LessAt(Keywords[34], Keywords[35], 0);
    case 35 => LessAt(Keywords[35], Keywords[36], 0);
    case 36 => ExtensionIsGreater(Keywords[36], Keywords[37]);
    case 37 => LessAt(Keywords[37], Keywords[38], 0);
    case 38 => LessAt(Keywords[38], Keywords[39], 2);
    case 39 => LessAt(Keywords[39], Keywords[40], 1);
  }

  lemma KeywordsAdjacent4(i: nat)
    requires 40 <= i < 50
    ensures LessEq(Keywords[i], Keywords[i + 1])
  {
    match i
    case 40 => LessAt(Keywords[40], Keywords[41], 0);
    case 41 => LessAt(Keywords[41], Keywords[42], 3);
    case 42 => LessAt(Keywords[42], Keywords[43], 2);
    case 43 => ExtensionIsGreater(Keywords[43], Keywords[44]);
    case 44 => LessAt(Keywords[44], Keywords[45], 1);
    case 45 => ExtensionIsGreater(Keywords[45], Keywords[46]);
    case 46 => LessAt(Keywords[46], Keywords[47], 0);
    case 47 => LessAt(Keywords[47], Keywords[48], 1);
    case 48 => LessAt(Keywords[48], Keywords[49], 1);
    case 49 => LessAt(Keywords[49], Keywords[50], 2);
  }

  lemma KeywordsAdjacent5(i: nat)
    requires 50 <= i < 60
    ensures LessEq(Keywords[i], Keywords[i + 1])
  {
    match i
    case 50 => LessAt(Keywords[50], Keywords[51], 0);
    case 51 => LessAt(Keywords[51], Keywords[52], 0);
    case 52 => LessAt(Keywords[52], Keywords[53], 4);
    case 53 => LessAt(Keywords[53], Keywords[54], 0);
    case 54 => LessAt(Keywords[54], Keywords[55], 1);
    case 55 => ExtensionIsGreater(Keywords[55], Keywords[56]);
    case 56 => LessAt(Keywords[56], Keywords[57], 2);
    case 57 => LessAt(Keywords[57], Keywords[58], 1);
    case 58 => LessAt(Keywords[58], Keywords[59], 1);
    case 59 => LessAt(Keywords[59], Keywords[60], 0);
  }

  lemma KeywordsAdjacent6(i: nat)
    requires 60 <= i < 70
    ensures LessEq(Keywords[i], Keywords[i + 1])
  {
    match i
    case 60 => LessAt(Keywords[60], Keywords[61], 1);
    case 61 => assert Keywords[61] == Keywords[62];
    case 62 => LessAt(Keywords[62], Keywords[63], 2);
    case 63 => LessAt(Keywords[63], Keywords[64], 1);
    case 64 => ExtensionIsGreater(Keywords[64], Keywords[65]);
    case 65 => LessAt(Keywords[65], Keywords[66], 1);
    case 66 => LessAt(Keywords[66], Keywords[67], 1);
    case 67 => LessAt(Keywords[67], Keywords[68], 1);
    case 68 => LessAt(Keywords[68], Keywords[69], 2);
    case 69 => LessAt(Keywords[69], Keywords[70], 0);
  }

  lemma KeywordsAdjacent7(i: nat)
    requires 70 <= i < 80
    ensures LessEq(Keywords[i], Keywords[i + 1])
  {
    match i
    case 70 => LessAt(Keywords[70], Keywords[71], 2);
    case 71 => LessAt(Keywords[71], Keywords[72], 2);
    case 72 => LessAt(Keywords[72], Keywords[73], 1);
    case 73 => LessAt(Keywords[73], Keywords[74], 0);
    case 74 => ExtensionIsGreater(Keywords[74], Keywords[75]);
    case 75 => LessAt(Keywords[75], Keywords[76], 2);
    case 76 => LessAt(Keywords[76], Keywords[77], 1);
    case 77 => LessAt(Keywords[77], Keywords[78], 0);
    case 78 => LessAt(Keywords[78], Keywords[79], 0);
    case 79 => LessAt(Keywords[79], Keywords[80], 1);
  }

  lemma KeywordsAdjacent8(i: nat)
    requires 80 <= i < 81
    ensures LessEq(Keywords[i], Keywords[i + 1])
  {
    match i
    case 80 => LessAt(Keywords[80], Keywords[81], 1);
  }

  /** The list is sorted, so binary search over it is meaningful. */
  lemma KeywordsSorted()
    ensures Sorted(Keywords)
  {
    forall i | 0 <= i < |Keywords| - 1 ensures LessEq(Keywords[i], Keywords[i + 1]) {
      if i < 10 { KeywordsAdjacent0(i); }
      else if i < 20 { KeywordsAdjacent1(i); }
      else if i < 30 { KeywordsAdjacent2(i); }
      else if i < 40 { KeywordsAdjacent3(i); }
      else if i < 50 { KeywordsAdjacent4(i); }
      else if i < 60 { KeywordsAdjacent5(i); }
      else if i < 70 { KeywordsAdjacent6(i); }
      else if i < 80 { KeywordsAdjacent7(i); }
      else { KeywordsAdjacent8(i); }
    }
    SortedFromAdjacent(Keywords);
  }
}
