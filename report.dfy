/**
 * Sending an analysis report (`POST /enviar-reporte`): the request is checked, a PDF is
 * written, and once the file is complete the report goes out by e-mail, by WhatsApp or
 * by both.
 *
 * The PDF itself, the mail transport and the WhatsApp script are not modelled; what is
 * modelled is which response the client gets and which deliveries were started before
 * it. `mailAccepted` says whether the mail transport accepted the message.
 */
module ReportDelivery {
  import opened Wrappers
  import opened Text
  import opened Registration

  /** The part of `resultados` the PDF step depends on: whether it carries the two word
      lists whose `forEach` fills the PDF. */
  datatype Resultados = Resultados(hasWordLists: bool)

  datatype ReportRequest = ReportRequest(medio: Option<string>, resultados: Option<Resultados>,
                                         correo: Option<string>, nombre: Option<string>,
                                         telefono: Option<string>)

  /** A delivery started by the handler: the e-mail to an address, or the WhatsApp
      script for a destination number with the name text it is given. */
  datatype Delivery = Email(to: string) | WhatsApp(numero: string, nombre: string)

  /** `Responded` is a JSON response; `NoResponse` is an exception inside the file's
      `finish` callback, which nothing catches, so the request never gets an answer. */
  datatype ReportOutcome =
    | Responded(status: nat, success: bool, message: string, sent: seq<Delivery>)
    | NoResponse(sent: seq<Delivery>)

  const ValidMedios: seq<string> := ["email", "whatsapp", "ambos"]

  predicate ByEmail(medio: string) { medio == "email" || medio == "ambos" }
  predicate ByWhatsApp(medio: string) { medio == "whatsapp" || medio == "ambos" }

  /** `nombre.split(' ')[0] || 'Usuario'`: the first word of the name, or "Usuario" when
      the name starts with a space or is empty. */
  function FirstNameOrDefault(nombre: string): (first: string)
    ensures first != "" && ' ' !in first
  {
    SplitHead(nombre, ' ');
    var word := Split(nombre, ' ')[0];
    if word == "" then "Usuario" else word
  }

  /** The name text the WhatsApp script receives: `${nombre1} ${apellido1}` with an empty
      surname. */
  function WhatsAppName(nombre: string): string
  {
    FirstNameOrDefault(nombre) + " "
  }

  /** The handler as written: the e-mail is sent before the phone number is checked, and
      a missing name makes `nombre.split` throw after the e-mail went out. */
  function DeliverReport(req: ReportRequest, mailAccepted: bool): ReportOutcome
  {
    if !Truthy(req.medio) || req.resultados.None? then Responded(400, false, "Faltan datos obligatorios", [])
    else if req.medio.value !in ValidMedios then Responded(400, false, "Medio no válido", [])
    else if !req.resultados.value.hasWordLists then Responded(500, false, "Error interno del servidor", [])
    else
      var medio := req.medio.value;
      if ByEmail(medio) && !Truthy(req.correo) then Responded(400, false, "Correo no proporcionado", [])
      else if ByEmail(medio) && !mailAccepted then NoResponse([])
      else
        var mailed := if ByEmail(medio) then [Email(req.correo.value)] else [];
        if ByWhatsApp(medio) && !Truthy(req.telefono) then Responded(400, false, "Teléfono no proporcionado", mailed)
        else if ByWhatsApp(medio) && req.nombre.None? then NoResponse(mailed)
        else
          var messaged := if ByWhatsApp(medio)
                          then [WhatsApp(WhatsAppNumber(req.telefono).value, WhatsAppName(req.nombre.value))]
                          else [];
          Responded(200, true, "Reporte enviado correctamente por " + medio, mailed + messaged)
  }

  /** The request checks of the handler as written, and what a successful request
      delivers: one e-mail to the given address for "email" and "ambos", one WhatsApp
      message to the normalised number for "whatsapp" and "ambos", in that order. */
  lemma DeliverReportCases(req: ReportRequest, mailAccepted: bool)
    ensures var r := DeliverReport(req, mailAccepted);
      && (r == Responded(400, false, "Faltan datos obligatorios", []) <==> !Truthy(req.medio) || req.resultados.None?)
      && (r == Responded(400, false, "Medio no válido", []) <==>
            Truthy(req.medio) && req.resultados.Some? && req.medio.value !in ValidMedios)
      && (r == Responded(400, false, "Correo no proporcionado", []) <==>
            Truthy(req.medio) && req.resultados.Some? && req.medio.value in ValidMedios
            && req.resultados.value.hasWordLists && ByEmail(req.medio.value) && !Truthy(req.correo))
      && ((r.Responded? && r.status == 200) <==>
            && Truthy(req.medio) && req.resultados.Some? && req.medio.value in ValidMedios
            && req.resultados.value.hasWordLists
            && (ByEmail(req.medio.value) ==> Truthy(req.correo) && mailAccepted)
            && (ByWhatsApp(req.medio.value) ==> Truthy(req.telefono) && req.nombre.Some?))
      && (r.Responded? && r.status == 200 ==>
            && r.message == "Reporte enviado correctamente por " + req.medio.value
            && (ByEmail(req.medio.value) ==> Email(req.correo.value) in r.sent)
            && (ByWhatsApp(req.medio.value) ==>
                  WhatsApp(CountryCode + Digits(req.telefono.value), WhatsAppName(req.nombre.value)) in r.sent)
            && (forall d | d in r.sent :: (d.Email? ==> ByEmail(req.medio.value))
                                         && (d.WhatsApp? ==> ByWhatsApp(req.medio.value)))
            && |r.sent| == (if req.medio.value == "ambos" then 2 else 1))
  {
  }

  /** The remaining responses of the handler as written: the 500 when the results carry
      no word lists, the 400 for a missing phone number (after any e-mail went out), and
      no answer at all on a mail failure or on WhatsApp without a name. */
  lemma DeliverReportFailureCases(req: ReportRequest, mailAccepted: bool)
    ensures var r := DeliverReport(req, mailAccepted);
      var checked := Truthy(req.medio) && req.resultados.Some? && req.medio.value in ValidMedios;
      && (r == Responded(500, false, "Error interno del servidor", []) <==>
            checked && !req.resultados.value.hasWordLists)
      && (r.Responded? && r.message == "Teléfono no proporcionado" <==>
            && checked && req.resultados.value.hasWordLists
            && (ByEmail(req.medio.value) ==> Truthy(req.correo) && mailAccepted)
            && ByWhatsApp(req.medio.value) && !Truthy(req.telefono))
      && (r.Responded? && r.message == "Teléfono no proporcionado" ==>
            && r.status == 400 && !r.success
            && r.sent == (if ByEmail(req.medio.value) then [Email(req.correo.value)] else []))
      && (r.NoResponse? <==>
            && checked && req.resultados.value.hasWordLists
            && (|| (ByEmail(req.medio.value) && Truthy(req.correo) && !mailAccepted)
                || (&& (ByEmail(req.medio.value) ==> Truthy(req.correo) && mailAccepted)
                    && ByWhatsApp(req.medio.value) && Truthy(req.telefono) && req.nombre.None?)))
      && (r.NoResponse? ==>
            r.sent == (if ByEmail(req.medio.value) && mailAccepted then [Email(req.correo.value)] else []))
  {
  }

  /** As written, "ambos" with an address but no phone number sends the e-mail and then
      answers 400 as if nothing had been done. */
  lemma AmbosWithoutPhoneMailsThenRejects(correo: string, nombre: Option<string>)
    requires correo != ""
    ensures DeliverReport(ReportRequest(Some("ambos"), Some(Resultados(true)), Some(correo), nombre, None), true)
            == Responded(400, false, "Teléfono no proporcionado", [Email(correo)])
  {
  }

  /** As written, a WhatsApp request without a name never gets a response. */
  lemma WhatsAppWithoutNameNeverResponds(telefono: string)
    requires telefono != ""
    ensures DeliverReport(ReportRequest(Some("whatsapp"), Some(Resultados(true)), None, None, Some(telefono)), true)
            == NoResponse([])
  {
  }

  /** The handler with every request check made before anything is sent, and a missing
      name treated like an empty one (`(nombre || '').split(' ')[0] || 'Usuario'`). */
  function DeliverReportChecked(req: ReportRequest, mailAccepted: bool): ReportOutcome
  {
    if !Truthy(req.medio) || req.resultados.None? then Responded(400, false, "Faltan datos obligatorios", [])
    else if req.medio.value !in ValidMedios then Responded(400, false, "Medio no válido", [])
    else if !req.resultados.value.hasWordLists then Responded(500, false, "Error interno del servidor", [])
    else
      var medio := req.medio.value;
      if ByEmail(medio) && !Truthy(req.correo) then Responded(400, false, "Correo no proporcionado", [])
      else if ByWhatsApp(medio) && !Truthy(req.telefono) then Responded(400, false, "Teléfono no proporcionado", [])
      else if ByEmail(medio) && !mailAccepted then NoResponse([])
      else
        var mailed := if ByEmail(medio) then [Email(req.correo.value)] else [];
        var nombre := if req.nombre.None? then "" else req.nombre.value;
        var messaged := if ByWhatsApp(medio) then [WhatsApp(WhatsAppNumber(req.telefono).value, WhatsAppName(nombre))] else [];
        Responded(200, true, "Reporte enviado correctamente por " + medio, mailed + messaged)
  }

  /** With the checks first, every rejected request has started no delivery, a request
      is left unanswered only when the mail transport fails, and whenever the handler as
      written succeeds the checked one answers and delivers the same. */
  lemma CheckedRejectsBeforeSending(req: ReportRequest, mailAccepted: bool)
    ensures var r := DeliverReportChecked(req, mailAccepted);
      && (r.Responded? && r.status != 200 ==> r.sent == [])
      && (r.NoResponse? ==> r.sent == [] && !mailAccepted && ByEmail(req.medio.value))
      && (r.Responded? && r.status == 200 <==>
            && Truthy(req.medio) && req.resultados.Some? && req.medio.value in ValidMedios
            && req.resultados.value.hasWordLists
            && (ByEmail(req.medio.value) ==> Truthy(req.correo) && mailAccepted)
            && (ByWhatsApp(req.medio.value) ==> Truthy(req.telefono)))
      && (DeliverReport(req, mailAccepted).Responded? && DeliverReport(req, mailAccepted).status == 200 ==>
            r == DeliverReport(req, mailAccepted))
  {
  }
}
