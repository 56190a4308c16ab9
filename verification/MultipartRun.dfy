/** A request that receives its body, packet by packet. */
module MultipartRuns {
  import opened Bytes
  import opened Options
  import opened Multipart
  import opened MultipartRequests
  import opened MultipartTheorems

  /** What a request has told when its packets are in: the parts of the body, a
      file that is not finished yet, and that it is handled, once, if a packet
      ended where it is complete. Without a body it is handled at once. */
  method Receive(form: Form, contentLength: nat, packets: seq<bytes>)
    returns (request: MultipartRequest, ghost es: seq<Event>, ghost open: seq<Event>)
    requires Good(form) && (contentLength > 0 ==> !EarlyEnd(packets, contentLength))
    ensures fresh(request) && request.Valid() && request.form == form
    ensures contentLength == 0 ==> request.events == [Handled] && !request.broken
    ensures contentLength > 0 ==>
              var body := Joined(packets);
              var split := SplitBody(body, form);
              var complete := EndsAt(packets, CompleteAt(body, contentLength, split.1));
              && AllTold(split.0, es)
              && (request.broken <==> split.1.Misread?)
              && (split.1.Misread? ==> es <= request.events)
              && (!split.1.Misread? ==>
                    && request.events == es + open + (if complete then [Handled] else [])
                    && Handed(open, request.header.filename).Some?
                    && (request.parseState == PARSE_REQ_END <==> complete))
              && (split.1.Closed? ==> open == [] && request.multiParseState == PARSING_FINISHED)
              && (split.1.Refused? ==> open == [] && request.multiParseState == PARSE_ERROR)
  {
    hide Packet, Split, AllTold, Handed, SplitBody, EndsAt;
    request := new MultipartRequest(form, contentLength);
    es, open := [], [];
    if contentLength > 0 {
      es, open := BodyIsSplit(form, contentLength, packets);
    } else {
      EndedStays(Opened(contentLength), form, packets);
    }
    ghost var goal := Packets(Opened(contentLength), form, packets);
    var i := 0;
    assert packets[0..] == packets;
    while i < |packets|
      invariant fresh(request) && fresh(request.itemBuffer) && request.Valid() && request.form == form
      invariant i <= |packets| && Packets(request.View(), form, packets[i..]) == goal
    {
      assert packets[i..][1..] == packets[i + 1..];
      request.OnData(packets[i]);
      i := i + 1;
    }
    assert packets[i..] == [] && request.View() == goal;
  }
}
