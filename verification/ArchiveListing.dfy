/** From the stream to the list of files: the scan finds a written archive, and the reader lists what it was written from. */
module ArchiveListing {
  import opened Bits
  import opened ExtHeaders
  import opened InputStream
  import opened BasicReader
  import opened ArchiveWriter

  /** Methods of LHA, LArc and PMarc, between two dashes; "pms" marks self-extractors. */
  predicate Recognised(method_: seq<Byte>)
    requires |method_| == 5
  {
    var a, b, c := method_[1] as char, method_[2] as char, method_[3] as char;
    && method_[0] as char == '-' && method_[4] as char == '-'
    && ((a == 'l' && b == 'h') || (a == 'l' && b == 'z' && (c == '4' || c == '5' || c == 's')) || (a == 'p' && b == 'm' && c != 's'))
  }

  lemma MethodOf(h: Head, tail: seq<Byte>)
    requires HeadOk(h)
    ensures var s := WriteHeader(h) + tail; |s| > 12 && s[..12][2..7] == h.method_
  {
    var a, b, c := Start(h) + h.method_, Field(Stored(h), 4), Field(h.lengths.length, 4);
    Append(a, b, c, h.times, [h.level], Body(h), tail);
    Layout(a, b, c, h.times, [h.level], Body(h) + tail);
    var s := WriteHeader(h) + tail;
    assert s[..12][2..7] == s[..7][2..7];
  }

  /** The scan takes a written header for one exactly by its method. */
  lemma WrittenMatches(h: Head, tail: seq<Byte>)
    requires HeadOk(h)
    ensures MatchAt(WriteHeader(h) + tail, 0) <==> Recognised(h.method_)
  {
    var s := WriteHeader(h) + tail;
    MethodOf(h, tail);
    var view := s[0..0 + VIEW];
    assert view == s[..12];
    var m := view[2..7];
    assert view[2] == m[0] && view[3] == m[1] && view[4] == m[2] && view[5] == m[3] && view[6] == m[4];
  }

  /** An archive with nothing before it is found at once. */
  lemma ArchiveIsFound(members: seq<Member>, accept: File -> bool, tail: seq<Byte>)
    requires ArchiveOk(members, accept) && members != [] && HeadOk(members[0].head) && Recognised(members[0].head.method_)
    ensures Eligible(WriteArchive(members, accept) + tail, 0) && NoneBefore(WriteArchive(members, accept) + tail, 0)
  {
    var m, more := members[0], WriteArchive(members[1..], accept);
    JoinMember(WriteHeader(m.head), m.data, more, tail);
    WrittenMatches(m.head, m.data + (more + tail));
  }

  /**
   The whole way: from a stream with any self-extractor in front, whatever the chunks of the scan and the
   amounts read in between, the files listed are those the archive was written from.
   */
  method ListWritten(stream: Stream, accept: File -> bool, sizes: nat -> seq<nat>,
                     ghost sfx: seq<Byte>, ghost members: seq<Member>, ghost tail: seq<Byte>)
    returns (files: seq<File>)
    requires stream.Valid() && stream.state == Init && stream.fills && ArchiveOk(members, accept)
    requires stream.data == sfx + (WriteArchive(members, accept) + tail) && |sfx| < 262144
    requires Eligible(stream.data, |sfx|) && NoneBefore(stream.data, |sfx|)
    modifies stream, stream.leadin
    ensures files == Files(members, accept) + Listing(tail, accept)
  {
    files := ListAll(stream, accept, sizes);
    assert stream.state != Fail && stream.start == |sfx|;
    Cut(sfx, WriteArchive(members, accept) + tail);
    ArchiveIsListed(members, accept, tail);
  }
}
