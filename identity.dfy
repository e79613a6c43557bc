/** The two HTTP lookups of a cycle, reduced to what the program takes from their
    JSON bodies. A body is `None` when the lookup raised an exception that the
    program catches: a failed request or a body that is not a JSON object, and for
    the address check also an HTTP error status. The geolocation lookup does not
    check the status, so its body is whatever JSON came back. */
module Identity {
  import opened Wrappers

  /** A JSON object whose members are strings. */
  type JsonObject = map<string, string>

  /** The placeholder for anything that could not be learnt. */
  const Unknown := "Unknown"

  const LocationEndpoint := "http://ip-api.com/json/"

  /** The geolocation request for an address, made without the proxy: the address
      can be read back from the URL. */
  function LocationUrl(ip: string): (url: string)
    ensures LocationEndpoint <= url && url[|LocationEndpoint|..] == ip
  {
    LocationEndpoint + ip
  }

  /** `obj.get(key, "Unknown")`. */
  function GetOrUnknown(obj: JsonObject, key: string): string {
    if key in obj then obj[key] else Unknown
  }

  /** The exit address shown and logged: the body's `IP` member, or "Unknown". */
  function IdentityIp(body: Option<JsonObject>): (ip: string)
    ensures body.Some? && "IP" in body.value ==> ip == body.value["IP"]
    ensures body.None? || "IP" !in body.value ==> ip == Unknown
  {
    match body
    case None => Unknown
    case Some(obj) => GetOrUnknown(obj, "IP")
  }

  datatype Location = Location(country: string, city: string)

  /** The provider answered and reported `"status": "success"`. */
  predicate Succeeded(body: Option<JsonObject>) {
    body.Some? && "status" in body.value && body.value["status"] == "success"
  }

  /** `get_ip_location`: country and city from a successful answer, each defaulting
      to "Unknown"; any other answer gives ("Unknown", "Unknown"). */
  function GetIpLocation(body: Option<JsonObject>): (loc: Location)
    ensures !Succeeded(body) ==> loc == Location(Unknown, Unknown)
    ensures Succeeded(body) && "country" in body.value ==> loc.country == body.value["country"]
    ensures Succeeded(body) && "city" in body.value ==> loc.city == body.value["city"]
    ensures loc.country == Unknown || (Succeeded(body) && "country" in body.value)
    ensures loc.city == Unknown || (Succeeded(body) && "city" in body.value)
  {
    match body
    case None => Location(Unknown, Unknown)
    case Some(data) =>
      if "status" in data && data["status"] == "success" then
        Location(GetOrUnknown(data, "country"), GetOrUnknown(data, "city"))
      else Location(Unknown, Unknown)
  }
}
