/**
 * The object key an upload is stored under
 * (internal/infrastructure/storage/oss_service.go, GenerateObjectKey). The
 * date the source reads from the clock is a parameter.
 */
module ObjectKey {
  import opened Common
  import opened Text

  /** The calendar date of the upload. */
  datatype Date = Date(year: nat, month: nat, day: nat)

  /** A date whose year has at most four digits. */
  predicate ValidDate(d: Date) {
    d.year < 10000 && 1 <= d.month <= 12 && 1 <= d.day <= 31
  }

  /** The date written with the layout "2006/01/02". */
  function DateSegment(d: Date): (s: string)
    requires ValidDate(d)
    ensures |s| == 10 && s[4] == '/' && s[7] == '/'
    ensures AllDigits(s[..4]) && AllDigits(s[5..7]) && AllDigits(s[8..])
  {
    var s := ZeroPad(d.year, 4) + "/" + ZeroPad(d.month, 2) + "/" + ZeroPad(d.day, 2);
    assert s[..4] == ZeroPad(d.year, 4) && s[5..7] == ZeroPad(d.month, 2) && s[8..] == ZeroPad(d.day, 2);
    s
  }

  /** Reading a "2006/01/02" segment back into a date. */
  function ParseDateSegment(s: string): (d: Date)
    requires |s| == 10 && AllDigits(s[..4]) && AllDigits(s[5..7]) && AllDigits(s[8..])
    ensures d.year < 10000 && d.month < 100 && d.day < 100
  {
    DecimalBound(s[..4]);
    DecimalBound(s[5..7]);
    DecimalBound(s[8..]);
    Date(DecimalValue(s[..4]), DecimalValue(s[5..7]), DecimalValue(s[8..]))
  }

  /** The date segment determines the date: parsing it gives the date back. */
  lemma DateSegmentRoundTrip(d: Date)
    requires ValidDate(d)
    ensures ParseDateSegment(DateSegment(d)) == d
  {
    var s := DateSegment(d);
    assert s[..4] == ZeroPad(d.year, 4) && s[5..7] == ZeroPad(d.month, 2) && s[8..] == ZeroPad(d.day, 2);
    assert Pow10(2) == 100;
    assert Pow10(4) == 10000;
    ZeroPadReadsBack(d.year, 4);
    ZeroPadReadsBack(d.month, 2);
    ZeroPadReadsBack(d.day, 2);
  }

  /** GenerateObjectKey: prefix "/" date "/" filename, followed by the filename's extension again. */
  function GenerateObjectKey(prefix: string, filename: string, date: Date): (key: string)
    requires ValidDate(date)
    ensures HasPrefix(key, prefix + "/")
    ensures |key| == |prefix| + 12 + |filename| + |Ext(filename)|
    ensures key[|prefix| + 1..|prefix| + 11] == DateSegment(date) && key[|prefix| + 11] == '/'
    ensures key[|prefix| + 12..] == filename + Ext(filename)
  {
    var head, tail := prefix + "/" + DateSegment(date) + "/", filename + Ext(filename);
    var key := head + tail;
    assert key[..|head|] == head && key[|head|..] == tail;
    assert head[..|prefix| + 1] == prefix + "/";
    assert head[|prefix| + 1..|prefix| + 11] == DateSegment(date);
    assert key == prefix + "/" + DateSegment(date) + "/" + filename + Ext(filename);
    key
  }

  /** The date of the upload can be read back from the key. */
  lemma ObjectKeyDate(prefix: string, filename: string, date: Date)
    requires ValidDate(date)
    ensures var key := GenerateObjectKey(prefix, filename, date);
      ParseDateSegment(key[|prefix| + 1..|prefix| + 11]) == date
  {
    DateSegmentRoundTrip(date);
  }

  /** Everything after a '/' decides the extension. */
  lemma {:induction false} ExtAfterSlash(x: string, f: string)
    ensures Ext(x + "/" + f) == Ext(f)
    decreases |f|
  {
    var p := x + "/" + f;
    ExtLast(p);
    if f == [] {
      assert p[|p| - 1] == '/';
    } else {
      var g := f[..|f| - 1];
      assert p[..|p| - 1] == x + "/" + g;
      assert p[|p| - 1] == f[|f| - 1];
      ExtAfterSlash(x, g);
      ExtLast(f);
    }
  }

  /** Appending a name's extension to it leaves the extension unchanged. */
  lemma ExtOfDoubled(f: string)
    ensures Ext(f + Ext(f)) == Ext(f)
  {
    var e := Ext(f);
    if e != [] {
      var p := f + e;
      assert p[|f|] == '.';
      forall k | |f| < k < |p| ensures p[k] != '.' && p[k] != '/' {
        assert p[k] == e[1..][k - |f| - 1];
      }
      ExtAtLastDot(p, |f|);
      assert p[|f|..] == e;
    } else {
      assert f + e == f;
    }
  }

  /** The key ends in the same extension as the filename, so the stored object keeps its type. */
  lemma ObjectKeyExtension(prefix: string, filename: string, date: Date)
    requires ValidDate(date)
    ensures Ext(GenerateObjectKey(prefix, filename, date)) == Ext(filename)
  {
    var x := prefix + "/" + DateSegment(date);
    assert GenerateObjectKey(prefix, filename, date) == x + "/" + (filename + Ext(filename));
    ExtAfterSlash(x, filename + Ext(filename));
    ExtOfDoubled(filename);
  }

  /** A filename with an extension carries it twice in the key. */
  lemma ExtensionDoubled(prefix: string, date: Date)
    requires ValidDate(date)
    ensures GenerateObjectKey(prefix, "a.srt", date) == prefix + "/" + DateSegment(date) + "/a.srt.srt"
  {
    ExtAtLastDot("a.srt", 1);
    assert "a.srt"[1..] == ".srt";
  }

  /**
   * A dot in an earlier path element is no extension: a name whose final
   * element has no '.' is stored under its own name, with nothing appended.
   */
  lemma NoExtensionAfterLastSlash(prefix: string, dir: string, name: string, date: Date)
    requires ValidDate(date)
    requires forall i :: 0 <= i < |name| ==> name[i] != '.'
    ensures GenerateObjectKey(prefix, dir + "/" + name, date) == prefix + "/" + DateSegment(date) + "/" + dir + "/" + name
  {
    ExtAfterSlash(dir, name);
    ExtWithoutDot(name);
  }
}
