/** FETCH of a MIME part: from a part number over the resolved part to the bytes of
    the literal. */
module FetchParts {
  import opened Common
  import opened FetchPump
  import Mime

  /** What BODY[path], BODY[path.TEXT] and BODY[path.MIME] ask of a part. */
  datatype PartKind = WholePart | TextPart | HeaderPart

  /** A part inside its message. */
  predicate Inside(l: Mime.Loc, size: nat) {
    l.start <= l.hdrEnd <= l.end <= size
  }

  function PartSection(l: Mime.Loc, k: PartKind): Section {
    match k
    case WholePart => Section.Span(l.start, l.end)
    case TextPart => SpanText(l.start, l.end, l.hdrEnd)
    case HeaderPart => SpanHeader(l.start, l.end, l.hdrEnd)
  }

  function PartBytes(src: string, l: Mime.Loc, k: PartKind): string
    requires Inside(l, |src|)
  {
    match k
    case WholePart => src[l.start..l.end]
    case TextPart => src[l.hdrEnd..l.end]
    case HeaderPart => src[l.start..l.hdrEnd]
  }

  /** What the literal of BODY[path]<p> holds, once the path is resolved. */
  function Fetched(src: string, l: Mime.Loc, k: PartKind, p: Partial, hdrEnd: nat): (r: string)
    requires Inside(l, |src|) && hdrEnd <= |src|
  {
    PartRegion(src, l, k, p, hdrEnd);
    var (skip, len) := Region(PartSection(l, k), p, |src|, hdrEnd);
    src[skip..skip + len]
  }

  lemma PartRegion(src: string, l: Mime.Loc, k: PartKind, p: Partial, hdrEnd: nat)
    requires Inside(l, |src|) && hdrEnd <= |src|
    ensures var (skip, len) := Region(PartSection(l, k), p, |src|, hdrEnd);
            skip + len <= |src| && src[skip..skip + len] == Window(PartBytes(src, l, k), p)
  {
    hide Region, Window;
    RegionIsWindow(PartSection(l, k), p, src, hdrEnd);
  }

  /** The literal of BODY[path]<p>, None where the path leads to no part. */
  function FetchPart(bd: Mime.Boundaries, src: string, path: seq<int>, k: PartKind, p: Partial, hdrEnd: nat)
    : Option<string>
    requires hdrEnd <= |src|
  {
    Mime.ResolveInside(bd, src, 0, |src|, path, 0);
    match Mime.Resolve(bd, src, 0, |src|, path, 0)
    case None => None
    case Some(l) => Some(Fetched(src, l, k, p, hdrEnd))
  }

  /** For every path that resolves, the literal holds exactly the requested window
      of the part. */
  lemma PartIsFetched(bd: Mime.Boundaries, src: string, path: seq<int>, k: PartKind, p: Partial, hdrEnd: nat)
    requires hdrEnd <= |src| && Mime.Resolve(bd, src, 0, |src|, path, 0).Some?
    ensures var l := Mime.Resolve(bd, src, 0, |src|, path, 0).value;
            Inside(l, |src|) && FetchPart(bd, src, path, k, p, hdrEnd) == Some(Window(PartBytes(src, l, k), p))
  {
    hide Mime.Resolve, Region, Window;
    Mime.ResolveInside(bd, src, 0, |src|, path, 0);
    PartRegion(src, Mime.Resolve(bd, src, 0, |src|, path, 0).value, k, p, hdrEnd);
  }

  /** Header and text of a part, fetched one after the other, are the part. */
  lemma HeaderAndTextArePart(src: string, l: Mime.Loc, hdrEnd: nat)
    requires Inside(l, |src|) && hdrEnd <= |src|
    ensures Fetched(src, l, HeaderPart, NoPartial, hdrEnd) + Fetched(src, l, TextPart, NoPartial, hdrEnd)
         == Fetched(src, l, WholePart, NoPartial, hdrEnd)
  {
    hide Region;
    PartRegion(src, l, HeaderPart, NoPartial, hdrEnd);
    PartRegion(src, l, TextPart, NoPartial, hdrEnd);
    PartRegion(src, l, WholePart, NoPartial, hdrEnd);
    assert src[l.start..l.hdrEnd] + src[l.hdrEnd..l.end] == src[l.start..l.end];
  }

  /** BODY[n] under the number that the walk reports for a part, where no empty part
      stands before it or before one of its ancestors, is answered with that part. */
  lemma ReportedPartIsFetched(bd: Mime.Boundaries, src: string, part: Mime.Part, k: PartKind, p: Partial, hdrEnd: nat)
    requires part in Mime.Report(bd, src) && hdrEnd <= |src|
    requires Mime.Solid(bd, src, 0, |src|, part.place, 0)
    ensures Inside(part.loc, |src|)
    ensures FetchPart(bd, src, part.id, k, p, hdrEnd) == Some(Window(PartBytes(src, part.loc, k), p))
  {
    hide Mime.Report, Mime.Resolve, Mime.Solid, FetchPart, Window;
    Mime.ReportedPartResolvesIff(bd, src, part);
    PartIsFetched(bd, src, part.id, k, p, hdrEnd);
  }
}
