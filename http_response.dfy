/** The part of net/http's ResponseWriter that the practice-2 handler drives: a header map,
    a status line sent once, and the body chunks written. */
module HttpResponse {

  const StatusOK := 200

  /** What a handler wrote into the body. An XML document stands for the XML declaration
      header followed by the indented encoding of a value; its bytes are not modelled. */
  datatype Chunk<Doc> = XmlDocument(doc: Doc) | PlainText(text: string)

  class ResponseWriter<Doc> {
    var header: map<string, string>
    var wroteHeader: bool
    var status: int
    var body: seq<Chunk<Doc>>

    /** A writer as net/http hands it to a handler: nothing set, nothing sent. */
    predicate Unused()
      reads this
    {
      header == map[] && !wroteHeader && body == []
    }

    constructor ()
      ensures Unused()
    {
      header := map[];
      wroteHeader := false;
      status := 0;
      body := [];
    }

    /** Header().Set */
    method SetHeader(key: string, value: string)
      modifies this
      ensures header == old(header)[key := value]
      ensures wroteHeader == old(wroteHeader) && status == old(status) && body == old(body)
    {
      header := header[key := value];
    }

    /** Header().Del */
    method DelHeader(key: string)
      modifies this
      ensures header == old(header) - {key}
      ensures wroteHeader == old(wroteHeader) && status == old(status) && body == old(body)
    {
      header := header - {key};
    }

    /** The status line goes out once; a later call is superfluous and ignored. */
    method WriteHeader(code: int)
      modifies this
      ensures wroteHeader
      ensures status == if old(wroteHeader) then old(status) else code
      ensures header == old(header) && body == old(body)
    {
      if !wroteHeader {
        status := code;
        wroteHeader := true;
      }
    }

    /** A write before any WriteHeader sends status 200 first. */
    method Write(chunk: Chunk<Doc>)
      modifies this
      ensures wroteHeader
      ensures status == if old(wroteHeader) then old(status) else StatusOK
      ensures body == old(body) + [chunk]
      ensures header == old(header)
    {
      WriteHeader(StatusOK);
      body := body + [chunk];
    }
  }

  /** net/http's Error helper: a plain-text reply with the given status and message line. */
  method Error<Doc>(w: ResponseWriter<Doc>, message: string, code: int)
    modifies w
    ensures w.header == (old(w.header) - {"Content-Length"})["Content-Type" := "text/plain; charset=utf-8"]["X-Content-Type-Options" := "nosniff"]
    ensures w.wroteHeader
    ensures w.status == if old(w.wroteHeader) then old(w.status) else code
    ensures w.body == old(w.body) + [PlainText(message + "\n")]
  {
    w.DelHeader("Content-Length");
    w.SetHeader("Content-Type", "text/plain; charset=utf-8");
    w.SetHeader("X-Content-Type-Options", "nosniff");
    w.WriteHeader(code);
    w.Write(PlainText(message + "\n"));
  }
}
