/**
 * The runtime side of the translation catalogue: the loader that reads a
 * packed YMO table into the hash-to-string map, the hash lookup, and
 * `Translate` with its "Title: rest" fallback.
 *
 * Strings are the bytes of NUL-terminated `char` strings, without the
 * terminator. The map's values are the C strings the table's offsets point
 * at; the pointer identity of the original does not matter to any caller
 * that compares or copies them, so the model keeps their contents.
 */
module I18n {
  import opened Wrappers
  import opened Bytes
  import Fnv

  /** The runtime's hash-to-string map. */
  type StringMap = map<u32, seq<u8>>

  /** The byte of `':'`. */
  const Colon: u8 := 0x3A
  /** The byte of `' '`. */
  const Space: u8 := 0x20

  /** Every string in the map is a C string: it holds no NUL. */
  predicate CStrings(m: StringMap) {
    forall k :: k in m ==> 0 !in m[k]
  }

  /**
   * The C string that starts at `buf[at]`: the bytes up to the first NUL.
   * `None` when no NUL follows inside the buffer, where the original would
   * read past the end of the table.
   */
  function CString(buf: seq<u8>, at: nat): (r: Option<seq<u8>>)
    ensures r.Some? ==> at + |r.value| < |buf| && buf[at + |r.value|] == 0
    ensures r.Some? ==> buf[at..at + |r.value|] == r.value && 0 !in r.value
    ensures r.None? ==> at >= |buf| || 0 !in buf[at..]
    decreases |buf| - at
  {
    if at >= |buf| then None
    else if buf[at] == 0 then Some([])
    else match CString(buf, at + 1)
      case None =>
        assert buf[at..] == [buf[at]] + buf[at + 1..];
        None
      case Some(rest) => Some([buf[at]] + rest)
  }

  /** The number of rows, read from the table's first two bytes (`YMOData::len`). */
  function Count(buf: seq<u8>): u16
    requires 2 <= |buf|
  {
    ReadLE16(buf, 0)
  }

  /** One row of the packed table (`YMOData::table[i]`). */
  datatype Row = Row(hash: u32, offset: u16)

  /** The first `n` rows: row `i`'s hash is at byte `2 + 6 * i`, its offset at byte `6 + 6 * i`. */
  function ReadRows(buf: seq<u8>, n: nat): (rows: seq<Row>)
    requires 2 + 6 * n <= |buf|
    ensures |rows| == n
    ensures forall i :: 0 <= i < n ==> rows[i] == Row(ReadLE32(buf, 2 + 6 * i), ReadLE16(buf, 6 + 6 * i))
  {
    seq(n, i requires 0 <= i < n => Row(ReadLE32(buf, 2 + 6 * i), ReadLE16(buf, 6 + 6 * i)))
  }

  /** Every row's string lies inside the buffer. */
  ghost predicate StringsInside(buf: seq<u8>, rows: seq<Row>) {
    forall i :: 0 <= i < |rows| ==> CString(buf, rows[i].offset).Some?
  }

  /** `emplace`: binds `k` unless it is already bound. */
  function Emplace(m: StringMap, k: u32, v: seq<u8>): StringMap {
    if k in m then m else m[k := v]
  }

  /**
   * The loading loop over `rows`, first row first. `None` when a row's
   * string runs past the end of the buffer.
   */
  function LoadRows(m: StringMap, buf: seq<u8>, rows: seq<Row>): Option<StringMap>
    decreases |rows|
  {
    if |rows| == 0 then Some(m)
    else
      var prev := LoadRows(m, buf, rows[..|rows| - 1]);
      var last := rows[|rows| - 1];
      var str := CString(buf, last.offset);
      if prev.None? || str.None? then None
      else Some(Emplace(prev.value, last.hash, str.value))
  }

  /**
   * Loading a whole table into `m` (`LoadTranslateData`). `None` when the
   * rows or their strings lie outside the buffer. A load binds every hash
   * the table's rows carry and keeps what `m` already bound.
   */
  function LoadTranslateData(m: StringMap, buf: seq<u8>): (r: Option<StringMap>)
    ensures r.Some? <==> 2 <= |buf| && 2 + 6 * Count(buf) <= |buf| && StringsInside(buf, ReadRows(buf, Count(buf)))
    ensures r.Some? ==> 2 <= |buf| && 2 + 6 * Count(buf) <= |buf| && forall k :: k in r.value <==>
      (k in m || exists i :: 0 <= i < Count(buf) && ReadRows(buf, Count(buf))[i].hash == k)
    ensures r.Some? ==> forall k :: k in m ==> k in r.value && r.value[k] == m[k]
  {
    if |buf| < 2 || |buf| < 2 + 6 * Count(buf) then None
    else
      var rows := ReadRows(buf, Count(buf));
      LoadRowsSucceeds(m, buf, rows);
      var r := LoadRows(m, buf, rows);
      if r.None? then r
      else
        LoadRowsKeys(m, buf, rows);
        r
  }

  /** Row `i` is the first row to carry hash `k`. */
  ghost predicate FirstRow(rows: seq<Row>, k: u32, i: int) {
    && 0 <= i < |rows|
    && rows[i].hash == k
    && forall j :: 0 <= j < i ==> rows[j].hash != k
  }

  /** Loading succeeds exactly when every row's string lies inside the buffer. */
  lemma {:induction false} LoadRowsSucceeds(m: StringMap, buf: seq<u8>, rows: seq<Row>)
    ensures LoadRows(m, buf, rows).Some? <==> StringsInside(buf, rows)
    decreases |rows|
  {
    if |rows| > 0 {
      var front := rows[..|rows| - 1];
      LoadRowsSucceeds(m, buf, front);
      if StringsInside(buf, rows) {
        assert StringsInside(buf, front) by {
          forall i | 0 <= i < |front| ensures CString(buf, front[i].offset).Some? {
            assert front[i] == rows[i];
          }
        }
      } else if LoadRows(m, buf, front).Some? {
        var i :| 0 <= i < |rows| && CString(buf, rows[i].offset).None?;
        assert i == |front|;
      }
    }
  }

  /**
   * A successful load binds a key exactly when it was bound before or some
   * row carries it, and keeps every earlier binding.
   */
  lemma {:induction false} LoadRowsKeys(m: StringMap, buf: seq<u8>, rows: seq<Row>)
    requires LoadRows(m, buf, rows).Some?
    ensures forall k :: k in LoadRows(m, buf, rows).value <==> (k in m || exists i :: 0 <= i < |rows| && rows[i].hash == k)
    ensures forall k :: k in m ==> LoadRows(m, buf, rows).value[k] == m[k]
    decreases |rows|
  {
    if |rows| > 0 {
      var n := |rows| - 1;
      var front := rows[..n];
      LoadRowsKeys(m, buf, front);
      var prev := LoadRows(m, buf, front).value;
      var r := LoadRows(m, buf, rows).value;
      forall k ensures k in r <==> (k in m || exists i :: 0 <= i < |rows| && rows[i].hash == k) {
        if k in prev {
          if k !in m {
            var i :| 0 <= i < n && front[i].hash == k;
            assert rows[i] == front[i];
          }
        } else if k != rows[n].hash {
          forall i | 0 <= i < |rows| ensures rows[i].hash != k {
            if i < n {
              assert rows[i] == front[i];
            }
          }
        }
      }
    }
  }

  /** A key new to the map is bound to the string of the first row that carries it. */
  lemma {:induction false} LoadRowsFirstWins(m: StringMap, buf: seq<u8>, rows: seq<Row>, k: u32, i: nat)
    requires LoadRows(m, buf, rows).Some?
    requires k !in m && FirstRow(rows, k, i)
    ensures k in LoadRows(m, buf, rows).value
    ensures Some(LoadRows(m, buf, rows).value[k]) == CString(buf, rows[i].offset)
    decreases |rows|
  {
    var n := |rows| - 1;
    var front := rows[..n];
    if i < n {
      assert FirstRow(front, k, i);
      LoadRowsFirstWins(m, buf, front, k, i);
    } else {
      LoadRowsKeys(m, buf, front);
      forall j | 0 <= j < n ensures front[j].hash != k {
        assert front[j] == rows[j];
      }
    }
  }

  /** A later load never replaces a string an earlier load bound. */
  lemma LoadKeepsBindings(m: StringMap, buf: seq<u8>, k: u32)
    requires k in m && LoadTranslateData(m, buf).Some?
    ensures k in LoadTranslateData(m, buf).value && LoadTranslateData(m, buf).value[k] == m[k]
  {
    LoadRowsKeys(m, buf, ReadRows(buf, Count(buf)));
  }

  /** Loaded strings are C strings. */
  lemma {:induction false} LoadRowsCStrings(m: StringMap, buf: seq<u8>, rows: seq<Row>)
    requires CStrings(m) && LoadRows(m, buf, rows).Some?
    ensures CStrings(LoadRows(m, buf, rows).value)
    decreases |rows|
  {
    if |rows| > 0 {
      LoadRowsCStrings(m, buf, rows[..|rows| - 1]);
    }
  }

  /**
   * `TranslateWithHash`: the mapped string when `hash` is bound, else the
   * input itself. The input comes back exactly when the hash is unbound or
   * bound to an equal string.
   */
  function TranslateWithHash(m: StringMap, str: seq<u8>, hash: u32): (r: seq<u8>)
    ensures r == str <==> hash !in m || m[hash] == str
    ensures r != str ==> hash in m && r == m[hash]
    ensures CStrings(m) && 0 !in str ==> 0 !in r
  {
    if hash in m then m[hash] else str
  }

  /** Position of the first `':'` in `s` (`find_first_of(':')`). */
  function FirstColon(s: seq<u8>): (r: Option<nat>)
    ensures r.Some? ==> r.value < |s| && s[r.value] == Colon
    ensures r.Some? ==> Colon !in s[..r.value]
    ensures r.None? ==> Colon !in s
    decreases |s|
  {
    if |s| == 0 then None
    else if s[0] == Colon then Some(0)
    else match FirstColon(s[1..])
      case None => None
      case Some(i) =>
        assert s[..i + 1] == [s[0]] + s[1..][..i];
        Some(i + 1)
  }

  /**
   * `Translate`: the direct lookup by the string's hash when it yields a
   * different string; otherwise, when the string has a first `':'` past
   * position 0 and the part before it translates to something else, that
   * translation followed by `": "` and the text after the colon; otherwise
   * the lookup's result, which then equals the input.
   */
  function Translate(m: StringMap, str: seq<u8>): (r: seq<u8>)
    ensures r == str || (Fnv.Fnv1a32(str) in m && r == m[Fnv.Fnv1a32(str)]) || exists i ::
      TitleEnd(str, i) && Fnv.Fnv1a32(str[..i]) in m && r == m[Fnv.Fnv1a32(str[..i])] + [Colon, Space] + str[i + 1..]
    ensures CStrings(m) && 0 !in str ==> 0 !in r
    decreases |str|
  {
    var result := TranslateWithHash(m, str, Fnv.Fnv1a32(str));
    if result != str then result
    else match FirstColon(str)
      case None => result
      case Some(index) =>
        if index == 0 then result
        else
          var title := str[..index];
          var target := Translate(m, title);
          if title != target then
            TitleSplit(str, index);
            target + [Colon, Space] + str[index + 1..]
          else result
  }

  /**
   * The part before the first colon ends at that colon and holds no colon
   * itself; slices of a NUL-free string are NUL-free.
   */
  lemma TitleSplit(str: seq<u8>, index: nat)
    requires FirstColon(str) == Some(index) && index > 0
    ensures TitleEnd(str, index)
    ensures forall j :: !TitleEnd(str[..index], j)
    ensures 0 !in str ==> 0 !in str[..index] && 0 !in str[index + 1..]
  {
    forall j | 0 < j < index ensures str[..index][j] != Colon {
      assert str[..index][j] in str[..index];
    }
    assert forall x :: x in str[index + 1..] ==> x in str;
    assert forall x :: x in str[..index] ==> x in str;
  }

  /** The direct lookup of a string by its own hash. */
  function Direct(m: StringMap, s: seq<u8>): seq<u8> {
    TranslateWithHash(m, s, Fnv.Fnv1a32(s))
  }

  /** `i` is the position of the first colon of `s`, and it is not the first byte. */
  predicate TitleEnd(s: seq<u8>, i: int) {
    0 < i < |s| && s[i] == Colon && Colon !in s[..i]
  }

  /**
   * A string without a colon translates to its direct lookup: the recursion
   * on the part before the first colon is never more than one level deep.
   */
  lemma TranslateNoColon(m: StringMap, s: seq<u8>)
    requires Colon !in s
    ensures Translate(m, s) == Direct(m, s)
  {
    assert FirstColon(s).None?;
  }

  /**
   * `Translate` against a non-recursive reading of the source: the direct
   * lookup when it differs from the input; else the title's direct lookup,
   * `": "` and the verbatim rest when the title before the first colon (not at
   * position 0) translates to something else; else the input unchanged.
   */
  lemma TranslateCases(m: StringMap, s: seq<u8>)
    ensures Direct(m, s) != s ==> Translate(m, s) == Direct(m, s)
    ensures forall i :: TitleEnd(s, i) && Direct(m, s) == s && Direct(m, s[..i]) != s[..i] ==>
      Translate(m, s) == Direct(m, s[..i]) + [Colon, Space] + s[i + 1..]
    ensures Direct(m, s) == s && (forall i :: TitleEnd(s, i) ==> Direct(m, s[..i]) == s[..i]) ==>
      Translate(m, s) == s
  {
    match FirstColon(s)
    case None =>
    case Some(index) =>
      assert forall i :: TitleEnd(s, i) ==> i == index;
      if index > 0 {
        assert TitleEnd(s, index);
        TranslateNoColon(m, s[..index]);
      }
  }
}
