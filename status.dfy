/** The closed set of status codes the server answers with, and their wire text. */
module Status {
  import opened Numeric

  /** `enum Status`, each variant carrying its HTTP status code as discriminant. */
  datatype Status = Okay | BadRequest | NotFound | InternalServerError

  /** The discriminant (`status as usize`) of each variant. */
  function Code(s: Status): (c: nat)
    ensures 100 <= c < 600
  {
    match s
    case Okay => 200
    case BadRequest => 400
    case NotFound => 404
    case InternalServerError => 500
  }

  /** `to_str`: the status code in decimal, a space, then a reason phrase. */
  function ToStr(s: Status): (r: string)
    ensures |r| > 4 && r[3] == ' '
  {
    match s
    case Okay => "200 Ok"
    case BadRequest => "400 Bad Request"
    case NotFound => "404 Not Found"
    case InternalServerError => "500 Not Found"
  }

  /** The status text starts with the variant's discriminant written in decimal. */
  lemma ToStrStartsWithCode(s: Status)
    ensures ToStr(s)[..3] == Decimal(Code(s))
  {
    match s
    case Okay => assert Decimal(20) == "20";
    case BadRequest => assert Decimal(40) == "40";
    case NotFound => assert Decimal(40) == "40";
    case InternalServerError => assert Decimal(50) == "50";
  }

  /** A status-only HTTP/1.1 response: the status line, then the empty line ending the headers. */
  function StatusOnlyResponse(statusText: string): string
  {
    "HTTP/1.1 " + statusText + "\r\n\r\n"
  }

  // One literal fact per variant, each proved on its own so the solver
  // never has to compare all four response texts in one obligation.
  lemma OkayFramed() ensures "HTTP/1.1 200 Ok\r\n\r\n" == StatusOnlyResponse("200 Ok") {}
  lemma BadRequestFramed() ensures "HTTP/1.1 400 Bad Request\r\n\r\n" == StatusOnlyResponse("400 Bad Request") {}
  lemma NotFoundFramed() ensures "HTTP/1.1 404 Not Found\r\n\r\n" == StatusOnlyResponse("404 Not Found") {}
  lemma InternalServerErrorFramed() ensures "HTTP/1.1 500 Not Found\r\n\r\n" == StatusOnlyResponse("500 Not Found") {}

  /** `to_response`: a whole status-only response built around the variant's status text. */
  function ToResponse(s: Status): (r: string)
    ensures r == StatusOnlyResponse(ToStr(s))
  {
    match s
    case Okay => OkayFramed(); "HTTP/1.1 200 Ok\r\n\r\n"
    case BadRequest => BadRequestFramed(); "HTTP/1.1 400 Bad Request\r\n\r\n"
    case NotFound => NotFoundFramed(); "HTTP/1.1 404 Not Found\r\n\r\n"
    case InternalServerError => InternalServerErrorFramed(); "HTTP/1.1 500 Not Found\r\n\r\n"
  }

  /** Distinct variants give distinct responses, and every response starts with the code. */
  lemma ToResponseInjective(a: Status, b: Status)
    ensures ToResponse(a) == ToResponse(b) ==> a == b
    ensures ToResponse(a)[9..12] == Decimal(Code(a))
  {
    var ra, rb := ToResponse(a), ToResponse(b);
    assert ra[9..9 + |ToStr(a)|] == ToStr(a);
    ToStrStartsWithCode(a);
    assert ra[9..12] == ToStr(a)[..3];
    if ra == rb {
      assert |ToStr(a)| == |ToStr(b)|;
      assert ToStr(a) == ra[9..9 + |ToStr(a)|] == rb[9..9 + |ToStr(b)|] == ToStr(b);
      ToStrInjective(a, b);
    }
  }

  /** Different variants never share a status text. */
  lemma ToStrInjective(a: Status, b: Status)
    ensures ToStr(a) == ToStr(b) ==> a == b
  {
    if ToStr(a) == ToStr(b) {
      ToStrStartsWithCode(a);
      ToStrStartsWithCode(b);
      assert Decimal(Code(a)) == ToStr(a)[..3] == ToStr(b)[..3] == Decimal(Code(b));
      DecimalValue(Code(a));
      DecimalValue(Code(b));
    }
  }

  /** The internal-error response reuses the reason phrase "Not Found" after code 500. */
  lemma InternalServerErrorPhrase()
    ensures ToStr(InternalServerError)[4..] == ToStr(NotFound)[4..] == "Not Found"
    ensures ToResponse(InternalServerError) == "HTTP/1.1 500 Not Found\r\n\r\n"
  {
  }
}
