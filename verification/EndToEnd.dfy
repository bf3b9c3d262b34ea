/** From the bytes of a request to the bytes of the reply, across all the parts. */
module EndToEnd {
  import opened Text
  import opened Http
  import opened RequestParser
  import opened UrlCodec
  import opened Replies
  import opened RequestHandler
  import opened Connections

  /** What a client reads off a new connection after its request arrived in these reads. */
  function Exchange(site: Site, blank: RequestData, status: int, pieces: seq<string>): Option<ReplyData>
    requires Fresh(blank) && Filling(pieces)
  {
    var sent := Run(site, Initial(blank, status), Reads(pieces)).sent;
    if |sent| == 1 then ReadReply(sent[0]) else None
  }

  /** A client that sends any acceptable request for a path, folded in any way, of any size,
      percent-encoded in any way and with anything after it, reads back the file with the opened name, byte for byte; 404 if
      there is no such file; and 400 if the path does not start with '/' or has two dots in a row.
      The reads may be any that fill the buffer except for the last. */
  lemma ClientReadsFile(site: Site, q0: RequestData, status: int, pieces: seq<string>, q: RequestData,
                        path: string, forms: seq<Form>)
    requires Fresh(q0) && Filling(pieces)
    requires var p := Parse(MethodStart, q0, Flatten(pieces)); p.result == Good && p.request == q
    requires ReadsHex(site.read) && UrlCodec.Valid(path, forms) && q.uri == UrlCodec.Encode(path, forms)
    ensures var name := OpenedName(site, path);
            Exchange(site, q0, status, pieces) ==
            Some(if !Servable(path) then StockReply(400)
                 else if name !in site.files then StockReply(404)
                 else ReplyData(200, BodyHeaders(site.files[name]), site.files[name]))
  {
    hide Parse, Handle, Serialize, StockReply, Run, ReadReply, RouteOf, OpenedName, Reads, Flatten, UrlCodec.Encode;
    var s := Initial(q0, status);
    FullReadsRefine(site, s, pieces);
    FramedAndReadable(site, q.uri, s.reply);
    EncodingDoesNotMatter(site, path, forms, s.reply);
    var name := OpenedName(site, path);
    if name in site.files {
      assert "" + site.files[name] == site.files[name];
    }
  }
}
