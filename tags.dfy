/** The `TagStore` class of `collector.py`: a map from category to a set of
    canonical technology tags, filled by `add`, `merge` and the three
    `resolve_*` lookups, and rendered by `format_tags`. */
module Tags {
  import opened Text
  import opened TagFormat

  /** One entry of a lookup table: a fragment, and the (category, tag) it
      stands for. */
  datatype Rule = Rule(key: string, category: string, tag: string)

  /** `_IMAGE_MAP`, in declaration order (the order the lookup scans). */
  const ImageMap: seq<Rule> := [
    Rule("langgenius/dify",           "Applications",   "Dify (AI/LLM)"),
    Rule("dify-api",                  "Applications",   "Dify (AI/LLM)"),
    Rule("dify-web",                  "Applications",   "Dify (AI/LLM)"),
    Rule("dify-sandbox",              "Applications",   "Dify (AI/LLM)"),
    Rule("dify-plugin-daemon",        "Applications",   "Dify (AI/LLM)"),
    Rule("ollama",                    "Applications",   "Ollama (LLM)"),
    Rule("open-webui",                "Applications",   "Open WebUI"),
    Rule("localai",                   "Applications",   "LocalAI"),
    Rule("vllm",                      "Applications",   "vLLM"),
    Rule("text-generation-inference", "Applications",   "TGI (HuggingFace)"),
    Rule("weaviate",                  "Databases",      "Weaviate (Vector DB)"),
    Rule("qdrant",                    "Databases",      "Qdrant (Vector DB)"),
    Rule("milvus",                    "Databases",      "Milvus (Vector DB)"),
    Rule("chromadb",                  "Databases",      "ChromaDB"),
    Rule("pinecone",                  "Databases",      "Pinecone"),
    Rule("postgres",                  "Databases",      "PostgreSQL"),
    Rule("mysql",                     "Databases",      "MySQL"),
    Rule("mariadb",                   "Databases",      "MariaDB"),
    Rule("mongo",                     "Databases",      "MongoDB"),
    Rule("redis",                     "Caching",        "Redis"),
    Rule("memcached",                 "Caching",        "Memcached"),
    Rule("elasticsearch",             "Databases",      "Elasticsearch"),
    Rule("opensearch",                "Databases",      "OpenSearch"),
    Rule("clickhouse",                "Databases",      "ClickHouse"),
    Rule("influxdb",                  "Databases",      "InfluxDB"),
    Rule("timescaledb",               "Databases",      "TimescaleDB"),
    Rule("cockroachdb",               "Databases",      "CockroachDB"),
    Rule("mssql",                     "Databases",      "SQL Server"),
    Rule("cassandra",                 "Databases",      "Cassandra"),
    Rule("neo4j",                     "Databases",      "Neo4j"),
    Rule("arangodb",                  "Databases",      "ArangoDB"),
    Rule("rabbitmq",                  "MessageBrokers", "RabbitMQ"),
    Rule("emqx",                      "MessageBrokers", "EMQX (MQTT)"),
    Rule("eclipse-mosquitto",         "MessageBrokers", "Mosquitto (MQTT)"),
    Rule("mosquitto",                 "MessageBrokers", "Mosquitto (MQTT)"),
    Rule("nats",                      "MessageBrokers", "NATS"),
    Rule("kafka",                     "MessageBrokers", "Kafka"),
    Rule("redpanda",                  "MessageBrokers", "Redpanda"),
    Rule("nginx",                     "ReverseProxy",   "Nginx"),
    Rule("openresty",                 "ReverseProxy",   "OpenResty (Nginx)"),
    Rule("caddy",                     "ReverseProxy",   "Caddy"),
    Rule("traefik",                   "ReverseProxy",   "Traefik"),
    Rule("haproxy",                   "ReverseProxy",   "HAProxy"),
    Rule("httpd",                     "WebServers",     "Apache HTTPD"),
    Rule("squid",                     "ReverseProxy",   "Squid Proxy"),
    Rule("sharelatex",                "Applications",   "Overleaf (LaTeX)"),
    Rule("overleaf",                  "Applications",   "Overleaf (LaTeX)"),
    Rule("erpnext",                   "Applications",   "ERPNext"),
    Rule("frappe",                    "Applications",   "ERPNext (Frappe)"),
    Rule("invoiceninja",              "Applications",   "Invoice Ninja"),
    Rule("opensign",                  "Applications",   "OpenSign"),
    Rule("opensignserver",            "Applications",   "OpenSign"),
    Rule("nextcloud",                 "Applications",   "Nextcloud"),
    Rule("gitea",                     "Applications",   "Gitea"),
    Rule("gitlab",                    "Applications",   "GitLab"),
    Rule("drone",                     "CI_CD",          "Drone CI"),
    Rule("jenkins",                   "CI_CD",          "Jenkins"),
    Rule("woodpecker",                "CI_CD",          "Woodpecker CI"),
    Rule("sonarqube",                 "Applications",   "SonarQube"),
    Rule("mattermost",                "Applications",   "Mattermost"),
    Rule("rocket.chat",               "Applications",   "Rocket.Chat"),
    Rule("vaultwarden",               "Applications",   "Vaultwarden"),
    Rule("bitwarden",                 "Applications",   "Bitwarden"),
    Rule("ghostcms",                  "Applications",   "Ghost CMS"),
    Rule("ghost",                     "Applications",   "Ghost CMS"),
    Rule("wordpress",                 "Applications",   "WordPress"),
    Rule("joomla",                    "Applications",   "Joomla"),
    Rule("plausible",                 "Applications",   "Plausible Analytics"),
    Rule("matomo",                    "Applications",   "Matomo Analytics"),
    Rule("umami",                     "Applications",   "Umami Analytics"),
    Rule("uptime-kuma",               "Monitoring",     "Uptime Kuma"),
    Rule("grafana",                   "Monitoring",     "Grafana"),
    Rule("prometheus",                "Monitoring",     "Prometheus"),
    Rule("loki",                      "Monitoring",     "Grafana Loki"),
    Rule("telegraf",                  "Monitoring",     "Telegraf"),
    Rule("zabbix",                    "Monitoring",     "Zabbix"),
    Rule("netdata",                   "Monitoring",     "Netdata"),
    Rule("portainer",                 "Containers",     "Portainer"),
    Rule("watchtower",                "Containers",     "Watchtower"),
    Rule("home-assistant",            "Applications",   "Home Assistant"),
    Rule("hass",                      "Applications",   "Home Assistant"),
    Rule("node-red",                  "Applications",   "Node-RED"),
    Rule("zigbee2mqtt",               "Applications",   "Zigbee2MQTT"),
    Rule("aria2",                     "Applications",   "Aria2 (Downloader)"),
    Rule("transmission",              "Applications",   "Transmission (BT)"),
    Rule("qbittorrent",               "Applications",   "qBittorrent"),
    Rule("jellyfin",                  "Applications",   "Jellyfin"),
    Rule("plex",                      "Applications",   "Plex"),
    Rule("minio",                     "Storage",        "MinIO (S3)"),
    Rule("registry",                  "Containers",     "Docker Registry"),
    Rule("verdaccio",                 "Applications",   "Verdaccio (npm)"),
    Rule("syncthing",                 "Applications",   "Syncthing"),
    Rule("filebrowser",               "Applications",   "File Browser"),
    Rule("v2ray",                     "Networking",     "V2Ray"),
    Rule("xray",                      "Networking",     "Xray"),
    Rule("clash",                     "Networking",     "Clash"),
    Rule("sing-box",                  "Networking",     "sing-box"),
    Rule("gost",                      "Networking",     "GOST"),
    Rule("mtranserver",               "Applications",   "MTranServer (Translation)"),
    Rule("dnsmgr",                    "Networking",     "DNSMgr"),
    Rule("adguard",                   "Networking",     "AdGuard Home"),
    Rule("pihole",                    "Networking",     "Pi-hole"),
    Rule("coredns",                   "Networking",     "CoreDNS"),
    Rule("epic-awesome-gamer",        "Applications",   "Epic Games Claimer")
  ]

  /** `_SVC_MAP` of `resolve_service`, in declaration order. */
  const SvcMap: seq<Rule> := [
    Rule("docker",     "Containers",     "Docker"),
    Rule("containerd", "Containers",     "containerd"),
    Rule("podman",     "Containers",     "Podman"),
    Rule("k3s",        "Orchestration",  "K3s"),
    Rule("kubelet",    "Orchestration",  "Kubernetes"),
    Rule("tailscale",  "Networking",     "Tailscale"),
    Rule("wireguard",  "Networking",     "WireGuard"),
    Rule("openvpn",    "Networking",     "OpenVPN"),
    Rule("nginx",      "ReverseProxy",   "Nginx"),
    Rule("caddy",      "ReverseProxy",   "Caddy"),
    Rule("apache2",    "WebServers",     "Apache"),
    Rule("httpd",      "WebServers",     "Apache"),
    Rule("postgresql", "Databases",      "PostgreSQL"),
    Rule("mysql",      "Databases",      "MySQL"),
    Rule("mariadb",    "Databases",      "MariaDB"),
    Rule("mongod",     "Databases",      "MongoDB"),
    Rule("redis",      "Caching",        "Redis"),
    Rule("fail2ban",   "Security",       "Fail2ban"),
    Rule("crowdsec",   "Security",       "CrowdSec"),
    Rule("prometheus", "Monitoring",     "Prometheus"),
    Rule("grafana",    "Monitoring",     "Grafana"),
    Rule("telegraf",   "Monitoring",     "Telegraf"),
    Rule("netdata",    "Monitoring",     "Netdata"),
    Rule("rclone",     "Storage",        "rclone"),
    Rule("smbd",       "Networking",     "Samba (SMB)"),
    Rule("samba",      "Networking",     "Samba (SMB)"),
    Rule("nfs",        "Storage",        "NFS"),
    Rule("libvirtd",   "Virtualization", "libvirt"),
    Rule("vnstat",     "Monitoring",     "vnStat"),
    Rule("nezha",      "Monitoring",     "Nezha (Probe)"),
    Rule("1panel",     "Applications",   "1Panel"),
    Rule("frp",        "Networking",     "frp (Tunnel)")
  ]

  /** `_NORM` of `resolve_tool`: lower-cased name -> canonical name. */
  const Norm: map<string, string> := map[
    "gcc" := "GCC",
    "g++" := "G++",
    "make" := "GNU Make",
    "cmake" := "CMake",
    "python" := "Python",
    "node.js" := "Node.js",
    "java" := "Java",
    "go" := "Go",
    "rust" := "Rust",
    "ruby" := "Ruby",
    "php" := "PHP",
    ".net" := ".NET",
    "perl" := "Perl",
    "lua" := "Lua",
    "r" := "R",
    "swift" := "Swift",
    "kotlin" := "Kotlin",
    "zig" := "Zig",
    "nim" := "Nim",
    "deno" := "Deno",
    "bun" := "Bun",
    "terraform" := "Terraform",
    "opentofu" := "OpenTofu",
    "ansible" := "Ansible",
    "kubectl" := "kubectl",
    "helm" := "Helm",
    "k3s" := "K3s",
    "k9s" := "K9s",
    "minikube" := "Minikube",
    "aws cli" := "AWS CLI",
    "azure cli" := "Azure CLI",
    "gcloud" := "GCP CLI",
    "vagrant" := "Vagrant",
    "packer" := "Packer",
    "pulumi" := "Pulumi",
    "docker compose" := "Docker Compose",
    "podman" := "Podman",
    "buildah" := "Buildah",
    "trivy" := "Trivy",
    "vault" := "HashiCorp Vault",
    "consul" := "HashiCorp Consul",
    "git" := "Git",
    "curl" := "curl",
    "wget" := "wget",
    "tmux" := "tmux",
    "neovim" := "Neovim",
    "vim" := "Vim",
    "jq" := "jq",
    "yq" := "yq",
    "fzf" := "fzf",
    "ripgrep" := "ripgrep",
    "fd" := "fd",
    "bat" := "bat",
    "ffmpeg" := "FFmpeg",
    "imagemagick" := "ImageMagick",
    "pandoc" := "Pandoc",
    "rsync" := "rsync",
    "wireguard" := "WireGuard",
    "openvpn" := "OpenVPN",
    "iptables" := "iptables",
    "nftables" := "nftables",
    "ufw" := "UFW",
    "certbot" := "Certbot (Let's Encrypt)",
    "fail2ban" := "Fail2ban",
    "crowdsec" := "CrowdSec",
    "nginx" := "Nginx",
    "apache" := "Apache",
    "caddy" := "Caddy",
    "traefik" := "Traefik",
    "haproxy" := "HAProxy",
    "postgresql" := "PostgreSQL",
    "mysql" := "MySQL",
    "mariadb" := "MariaDB",
    "redis" := "Redis",
    "mongodb" := "MongoDB",
    "sqlite3" := "SQLite",
    "influxdb" := "InfluxDB",
    "clickhouse" := "ClickHouse",
    "cockroachdb" := "CockroachDB",
    "prometheus" := "Prometheus",
    "grafana" := "Grafana",
    "telegraf" := "Telegraf",
    "netdata" := "Netdata",
    "node exporter" := "Prometheus Node Exporter",
    "zabbix agent" := "Zabbix",
    "kvm/qemu" := "KVM/QEMU",
    "libvirt" := "libvirt",
    "lxc" := "LXC",
    "lxd" := "LXD",
    "incus" := "Incus",
    "htop" := "htop",
    "btop" := "btop"
  ]

  // ---------------------------------------------------------------------------
  // What `add` and `merge` compute

  /** The non-empty names of a call `add(category, *names)`. */
  function NamesOf(names: seq<string>): set<string>
  {
    set n | n in names && n != ""
  }

  /** The store after `add(cat, *names)`: the category exists, holding its
      old tags and every non-empty name. */
  function Added(tags: Tags, cat: string, names: seq<string>): Tags
  {
    tags[cat := Get(tags, cat) + NamesOf(names)]
  }

  /** Before `add`'s loop the category exists and holds its old tags. */
  lemma AddStart(tags: Tags, cat: string, names: seq<string>)
    ensures tags[cat := Get(tags, cat)] == Added(tags, cat, names[..0])
  {
    assert NamesOf(names[..0]) == {};
    assert Get(tags, cat) + NamesOf(names[..0]) == Get(tags, cat);
  }

  /** Each round of `add`'s loop takes one more name into account. */
  lemma AddStep(t: Tags, tags: Tags, cat: string, names: seq<string>, i: nat)
    requires i < |names| && t == Added(tags, cat, names[..i])
    ensures (if names[i] != "" then t[cat := t[cat] + {names[i]}] else t) == Added(tags, cat, names[..i + 1])
  {
    assert names[..i + 1] == names[..i] + [names[i]];
    var s := NamesOf(names[..i]);
    assert NamesOf(names[..i + 1]) == s + (if names[i] != "" then {names[i]} else {});
    assert t[cat] == Get(tags, cat) + s;
    if names[i] != "" {
      assert t[cat := t[cat] + {names[i]}] == tags[cat := Get(tags, cat) + s + {names[i]}];
      assert Get(tags, cat) + s + {names[i]} == Get(tags, cat) + NamesOf(names[..i + 1]);
    } else {
      assert Get(tags, cat) + s == Get(tags, cat) + NamesOf(names[..i + 1]);
    }
  }

  /** The pairs a rule stands for: none, or its (category, tag). */
  function RulePairs(r: Option<Rule>): set<(string, string)>
  {
    match r
    case None => {}
    case Some(x) => if x.tag == "" then {} else {(x.category, x.tag)}
  }

  /** `add(r.category, r.tag)` when a rule matched, nothing otherwise. */
  function AddedRule(tags: Tags, r: Option<Rule>): Tags
  {
    match r
    case None => tags
    case Some(x) => Added(tags, x.category, [x.tag])
  }

  /** The store after `merge(other)`: every category of either, holding the
      union of its tags in both. */
  function Union(a: Tags, b: Tags): Tags
  {
    map c | c in a.Keys + b.Keys :: Get(a, c) + Get(b, c)
  }

  /** `add` creates the category, leaves the others alone, and adds
      exactly the pairs of the non-empty names. */
  lemma AddPairs(tags: Tags, cat: string, names: seq<string>)
    ensures Added(tags, cat, names).Keys == tags.Keys + {cat}
    ensures forall c :: c in tags && c != cat ==> Added(tags, cat, names)[c] == tags[c]
    ensures Pairs(Added(tags, cat, names)) == Pairs(tags) + set n | n in names && n != "" :: (cat, n)
  {
    var r := Added(tags, cat, names);
    forall p | p in Pairs(r) ensures p in Pairs(tags) + set n | n in names && n != "" :: (cat, n) {
      var (c, t) := p;
      if c != cat || t !in NamesOf(names) {
        assert t in tags[c];
      }
    }
  }

  /** Empty names never reach the store. */
  lemma AddIgnoresEmpty(tags: Tags, cat: string, names: seq<string>)
    ensures "" in Added(tags, cat, names)[cat] <==> "" in Get(tags, cat)
  {
  }

  /** Adding the same names again changes nothing. */
  lemma AddIdempotent(tags: Tags, cat: string, names: seq<string>)
    ensures Added(Added(tags, cat, names), cat, names) == Added(tags, cat, names)
  {
    var r := Added(tags, cat, names);
    assert Get(r, cat) + NamesOf(names) == r[cat];
  }

  /** `merge` makes each category the union of both stores. */
  lemma UnionPairs(a: Tags, b: Tags)
    ensures Union(a, b).Keys == a.Keys + b.Keys
    ensures Pairs(Union(a, b)) == Pairs(a) + Pairs(b)
  {
    var u := Union(a, b);
    forall p | p in Pairs(u) ensures p in Pairs(a) + Pairs(b) {
      var (c, t) := p;
      assert t in Get(a, c) || t in Get(b, c);
    }
    forall p | p in Pairs(a) + Pairs(b) ensures p in Pairs(u) {
      var (c, t) := p;
      assert c in u && t in u[c];
    }
  }

  /** `merge` never removes a tag. */
  lemma UnionKeeps(a: Tags, b: Tags)
    ensures forall c :: c in a ==> c in Union(a, b) && a[c] <= Union(a, b)[c]
  {
  }

  /** Merging a store into itself changes nothing. */
  lemma UnionSelf(a: Tags)
    ensures Union(a, a) == a
  {
    var u := Union(a, a);
    assert u.Keys == a.Keys;
    forall c | c in u ensures u[c] == a[c] {
    }
  }

  /** Merging is symmetric in its two stores. */
  lemma UnionCommutes(a: Tags, b: Tags)
    ensures Union(a, b) == Union(b, a)
  {
    var u, v := Union(a, b), Union(b, a);
    assert u.Keys == v.Keys;
    forall c | c in u ensures u[c] == v[c] {
    }
  }

  /** `merge`'s loop state: the categories of `src` outside `todo` are
      folded into `start`. */
  predicate FoldedSoFar(tags: Tags, start: Tags, src: Tags, todo: set<string>)
  {
    tags.Keys == start.Keys + (src.Keys - todo)
    && forall c :: c in tags ==> tags[c] == Get(start, c) + (if c in src && c !in todo then src[c] else {})
  }

  /** Before the loop nothing is folded in; each round folds one more. */
  lemma FoldStart(start: Tags, src: Tags)
    ensures FoldedSoFar(start, start, src, src.Keys)
  {
  }

  lemma FoldStep(tags: Tags, start: Tags, src: Tags, todo: set<string>, c: string)
    requires FoldedSoFar(tags, start, src, todo) && c in todo && todo <= src.Keys
    ensures FoldedSoFar(tags[c := Get(tags, c) + src[c]], start, src, todo - {c})
  {
    var t := tags[c := Get(tags, c) + src[c]];
    assert t.Keys == start.Keys + (src.Keys - (todo - {c}));
  }

  /** Once every category is folded in, the store is the union. */
  lemma FoldedAll(tags: Tags, start: Tags, src: Tags)
    requires FoldedSoFar(tags, start, src, {})
    ensures tags == Union(start, src)
  {
    var u := Union(start, src);
    assert tags.Keys == u.Keys;
    forall c | c in tags ensures tags[c] == u[c] {
    }
  }

  // ---------------------------------------------------------------------------
  // The lookups

  /** The first rule of `table`, in order, whose key occurs in `c`: the
      `for key, (cat, tag) in ...items(): if key in c` scan. */
  function FirstMatch(table: seq<Rule>, c: string): (r: Option<Rule>)
    ensures r.Some? ==> r.value in table && IsSubstring(r.value.key, c)
    ensures r.None? <==> forall i :: 0 <= i < |table| ==> !IsSubstring(table[i].key, c)
    decreases |table|
  {
    if |table| == 0 then None
    else if IsSubstring(table[0].key, c) then Some(table[0])
    else
      var r := FirstMatch(table[1..], c);
      assert forall i :: 1 <= i < |table| ==> table[i] == table[1..][i - 1];
      r
  }

  /** Rule `i` is the first whose key occurs in `c`. */
  predicate FirstAt(table: seq<Rule>, c: string, i: int)
  {
    0 <= i < |table| && IsSubstring(table[i].key, c)
    && forall j :: 0 <= j < i ==> !IsSubstring(table[j].key, c)
  }

  /** The scan answers with the first matching rule, and that rule only:
      earlier keys win, whatever their length. */
  lemma {:induction false} FirstMatchIsFirst(table: seq<Rule>, c: string)
    ensures FirstMatch(table, c).Some? ==>
      exists i :: FirstAt(table, c, i) && FirstMatch(table, c).value == table[i]
    ensures forall i :: FirstAt(table, c, i) ==> FirstMatch(table, c) == Some(table[i])
    decreases |table|
  {
    if |table| > 0 {
      FirstMatchIsFirst(table[1..], c);
      if IsSubstring(table[0].key, c) {
        assert FirstAt(table, c, 0);
      } else {
        if FirstMatch(table, c).Some? {
          var i :| FirstAt(table[1..], c, i) && FirstMatch(table[1..], c).value == table[1..][i];
          assert FirstAt(table, c, i + 1);
        }
        forall i | FirstAt(table, c, i) ensures FirstMatch(table, c) == Some(table[i]) {
          assert FirstAt(table[1..], c, i - 1);
        }
      }
    }
  }

  /** The scan of `table` for `c`, as the loop with `break` it is. */
  method FindRule(table: seq<Rule>, c: string) returns (r: Option<Rule>)
    ensures r == FirstMatch(table, c)
  {
    var i := 0;
    r := None;
    while i < |table|
      invariant 0 <= i <= |table|
      invariant FirstMatch(table, c) == FirstMatch(table[i..], c)
    {
      if IsSubstring(table[i].key, c) {
        r := Some(table[i]);
        return;
      }
      assert table[i..][1..] == table[i + 1..];
      i := i + 1;
    }
  }

  /** The candidates of `resolve_docker_image`: the lower-cased image up to
      its first `:`, stripped; its last two `/` segments (or `""` when there
      is only one); its last segment. */
  function Candidates(image: string, lower: string -> string): (cs: seq<string>)
    ensures |cs| == 3
  {
    var img := Strip(Split(lower(image), ':')[0]);
    var parts := Split(img, '/');
    [img, if |parts| >= 2 then Join(parts[|parts| - 2..], "/") else "", parts[|parts| - 1]]
  }

  /** The part before the first `:`, stripped, holds no `:`. */
  lemma BeforeColon(s: string)
    ensures ':' !in Strip(Split(s, ':')[0])
  {
    var piece := Split(s, ':')[0];
    SplitPiecesFree(s, ':');
    var l := LStrip(piece, IsSpace);
    var img := RStrip(l, IsSpace);
    assert forall i :: 0 <= i < |img| ==> img[i] == piece[|piece| - |l| + i];
  }

  /** The last two segments and the last segment of a path are suffixes of
      it, and the last segment holds no `/`. */
  lemma Segments(img: string)
    ensures var parts := Split(img, '/'); var n := |parts|;
      var two := if n >= 2 then Join(parts[n - 2..], "/") else "";
      '/' !in parts[n - 1]
      && |two| <= |img| && img[|img| - |two|..] == two
      && |parts[n - 1]| <= |img| && img[|img| - |parts[n - 1]|..] == parts[n - 1]
  {
    var parts := Split(img, '/');
    var n := |parts|;
    SplitLastSuffix(img, '/');
    if n >= 2 {
      SplitSuffix(img, '/', n - 2);
    }
  }

  /** The full path holds no tag; the other two candidates are suffixes of
      it, and the last one is a single segment. */
  lemma CandidatesShape(image: string, lower: string -> string)
    ensures var cs := Candidates(image, lower);
      ':' !in cs[0] && '/' !in cs[2]
      && |cs[1]| <= |cs[0]| && cs[0][|cs[0]| - |cs[1]|..] == cs[1]
      && |cs[2]| <= |cs[0]| && cs[0][|cs[0]| - |cs[2]|..] == cs[2]
  {
    BeforeColon(lower(image));
    Segments(Strip(Split(lower(image), ':')[0]));
  }

  /** The rule `resolve_docker_image` adds: the first match of the first
      non-empty candidate that has one. */
  function CandidateMatch(table: seq<Rule>, cs: seq<string>): (r: Option<Rule>)
    decreases |cs|
  {
    if |cs| == 0 then None
    else if cs[0] != "" && FirstMatch(table, cs[0]).Some? then FirstMatch(table, cs[0])
    else CandidateMatch(table, cs[1..])
  }

  /** Candidate `k` is the first non-empty one with a match. */
  predicate FirstCandidateAt(table: seq<Rule>, cs: seq<string>, k: int)
  {
    0 <= k < |cs| && cs[k] != "" && FirstMatch(table, cs[k]).Some?
    && forall j :: 0 <= j < k ==> cs[j] == "" || FirstMatch(table, cs[j]).None?
  }

  /** The candidates are tried in order and the first with a match decides. */
  lemma {:induction false} CandidateMatchIsFirst(table: seq<Rule>, cs: seq<string>)
    ensures CandidateMatch(table, cs).None? <==> forall k :: 0 <= k < |cs| ==> !FirstCandidateAt(table, cs, k)
    ensures forall k :: FirstCandidateAt(table, cs, k) ==> CandidateMatch(table, cs) == FirstMatch(table, cs[k])
    decreases |cs|
  {
    if |cs| > 0 {
      CandidateMatchIsFirst(table, cs[1..]);
      if cs[0] != "" && FirstMatch(table, cs[0]).Some? {
        assert FirstCandidateAt(table, cs, 0);
        forall k | FirstCandidateAt(table, cs, k) ensures k == 0 {
        }
      } else {
        assert !FirstCandidateAt(table, cs, 0);
        forall k | 1 <= k < |cs|
          ensures FirstCandidateAt(table, cs, k) <==> FirstCandidateAt(table, cs[1..], k - 1)
        {
          assert cs[1..][k - 1] == cs[k];
          assert forall j :: 1 <= j < k ==> cs[1..][j - 1] == cs[j];
        }
        forall k | FirstCandidateAt(table, cs, k) ensures CandidateMatch(table, cs) == FirstMatch(table, cs[k]) {
          assert FirstCandidateAt(table, cs[1..], k - 1);
          assert cs[1..][k - 1] == cs[k];
        }
        if CandidateMatch(table, cs).Some? {
          var k :| 0 <= k < |cs| - 1 && FirstCandidateAt(table, cs[1..], k);
          assert FirstCandidateAt(table, cs, k + 1);
        }
      }
    }
  }

  /** The rule of a docker image. */
  function ImageRule(image: string, lower: string -> string): Option<Rule>
  {
    CandidateMatch(ImageMap, Candidates(image, lower))
  }

  /** Python's `s.replace(pat, "")`: every occurrence, scanning left to right. */
  function RemoveAll(s: string, pat: string): (r: string)
    requires |pat| > 0
    ensures |r| <= |s|
    decreases |s|
  {
    if |s| < |pat| then s
    else if s[..|pat|] == pat then RemoveAll(s[|pat|..], pat)
    else [s[0]] + RemoveAll(s[1..], pat)
  }

  /** A string without the pattern is left as it is. */
  lemma {:induction false} RemoveAbsent(s: string, pat: string)
    requires |pat| > 0 && !IsSubstring(pat, s)
    ensures RemoveAll(s, pat) == s
    decreases |s|
  {
    if |s| >= |pat| {
      assert s[..|pat|] != pat;
      RemoveAbsent(s[1..], pat);
      assert s == [s[0]] + s[1..];
    }
  }

  /** `svc.lower().replace(".service", "")`. */
  function ServiceKey(svc: string, lower: string -> string): string
  {
    RemoveAll(lower(svc), ".service")
  }

  /** `_NORM.get(name.lower(), name)`. */
  function Canonical(name: string, lower: string -> string): (r: string)
    ensures lower(name) in Norm ==> r == Norm[lower(name)]
    ensures lower(name) !in Norm ==> r == name
  {
    var k := lower(name);
    if k in Norm then Norm[k] else name
  }

  /** The pairs of a one-name `add`. */
  lemma OneNamePairs(cat: string, n: string)
    ensures (set m | m in [n] && m != "" :: (cat, m)) == if n == "" then {} else {(cat, n)}
  {
    if n != "" {
      assert n in [n];
    }
  }

  /** Adding a matched rule adds its pair and nothing else. */
  lemma AddRulePairs(tags: Tags, r: Option<Rule>)
    ensures Pairs(AddedRule(tags, r)) == Pairs(tags) + RulePairs(r)
  {
    match r
    case None =>
    case Some(x) =>
      AddPairs(tags, x.category, [x.tag]);
      OneNamePairs(x.category, x.tag);
  }

  /** The store after `resolve_docker_image(image)`. */
  function DockerResolved(tags: Tags, r: Option<Rule>): Tags
  {
    Added(AddedRule(tags, r), "Containers", ["Docker"])
  }

  /** `resolve_docker_image` always tags Docker, and adds at most one other
      pair: the one of the rule that matched. */
  lemma DockerPairs(tags: Tags, r: Option<Rule>)
    ensures "Docker" in DockerResolved(tags, r)["Containers"]
    ensures Pairs(DockerResolved(tags, r)) == Pairs(tags) + RulePairs(r) + {("Containers", "Docker")}
  {
    AddRulePairs(tags, r);
    AddPairs(AddedRule(tags, r), "Containers", ["Docker"]);
    OneNamePairs("Containers", "Docker");
  }

  /** A lookup adds at most one pair, and nothing when no key of the table
      occurs in the key it is given. */
  lemma LookupPairs(tags: Tags, table: seq<Rule>, key: string)
    ensures |RulePairs(FirstMatch(table, key))| <= 1
    ensures Pairs(AddedRule(tags, FirstMatch(table, key))) == Pairs(tags) + RulePairs(FirstMatch(table, key))
    ensures (forall i :: 0 <= i < |table| ==> !IsSubstring(table[i].key, key))
      ==> AddedRule(tags, FirstMatch(table, key)) == tags
  {
    AddRulePairs(tags, FirstMatch(table, key));
  }

  // ---------------------------------------------------------------------------
  // The loops of `format_tags` that write the blocks

  /** The loop over `_CAT_ORDER`: each label with tags is popped from
      `merged` and written as a block. */
  method EmitOrdered(order: seq<(string, string)>, m0: Tags)
    returns (merged: Tags, lines: seq<string>, flat: seq<string>, ghost bs: seq<Block>)
    ensures bs == Emit(order, m0).0 && merged == Emit(order, m0).1
    ensures lines == LinesOf(Emit(order, m0).0) && flat == FlatOf(Emit(order, m0).0)
  {
    merged := m0;
    bs, lines, flat := [], [], [];
    EmittedStart(order, m0);
    var i := 0;
    while i < |order|
      invariant EmittedSoFar(order, m0, i, merged, bs)
      invariant lines == LinesOf(bs) && flat == FlatOf(bs)
    {
      var heading := order[i].1;
      EmittedStep(order, m0, i, merged, bs);
      if heading in merged && merged[heading] != {} {
        var sorted := SortStrings(merged[heading]);
        merged := merged - {heading};
        BlocksSnoc(bs, Block(heading, sorted));
        flat := flat + sorted;
        lines := lines + ["**" + heading + "**", TagList(sorted), ""];
        bs := bs + [Block(heading, sorted)];
      }
      i := i + 1;
    }
    EmittedDone(order, m0, merged, bs);
  }

  /** The loop over `sorted(merged.items())`: each remaining label with tags
      is written as a block. */
  method EmitLeftover(rest: Tags, lines0: seq<string>, flat0: seq<string>, ghost bs0: seq<Block>)
    returns (lines: seq<string>, flat: seq<string>, labels: seq<string>, ghost bs: seq<Block>)
    requires lines0 == LinesOf(bs0) && flat0 == FlatOf(bs0)
    ensures labels == SortedSet(rest.Keys)
    ensures (forall j :: 0 <= j < |labels| ==> labels[j] in rest) && bs == bs0 + Leftover(rest, labels)
    ensures lines == LinesOf(bs) && flat == FlatOf(bs)
  {
    labels := SortStrings(rest.Keys);
    SortedSetMembers(rest.Keys);
    bs, lines, flat := bs0, lines0, flat0;
    var j := 0;
    while j < |labels|
      invariant 0 <= j <= |labels|
      invariant bs == bs0 + Leftover(rest, labels[..j])
      invariant lines == LinesOf(bs) && flat == FlatOf(bs)
    {
      var heading := labels[j];
      LeftoverEmitStep(rest, labels, j, bs0, bs);
      if rest[heading] != {} {
        var sorted := SortStrings(rest[heading]);
        BlocksSnoc(bs, Block(heading, sorted));
        flat := flat + sorted;
        lines := lines + ["**" + heading + "**", TagList(sorted), ""];
        bs := bs + [Block(heading, sorted)];
      }
      j := j + 1;
    }
    assert labels[..|labels|] == labels;
  }

  // ---------------------------------------------------------------------------
  // The store

  class TagStore {
    /** `_tags`: category -> set of canonical tags. */
    var tags: Tags

    constructor()
      ensures tags == map[]
    {
      tags := map[];
    }

    /** `add(category, *names)`. */
    method Add(cat: string, names: seq<string>)
      modifies this
      ensures tags == Added(old(tags), cat, names)
    {
      AddStart(tags, cat, names);
      tags := tags[cat := Get(tags, cat)];
      var i := 0;
      while i < |names|
        invariant 0 <= i <= |names|
        invariant tags == Added(old(tags), cat, names[..i])
      {
        AddStep(tags, old(tags), cat, names, i);
        if names[i] != "" {
          tags := tags[cat := tags[cat] + {names[i]}];
        }
        i := i + 1;
      }
      assert names[..|names|] == names;
    }

    /** `merge(other)`; `other` may be this very store. */
    method Merge(other: TagStore)
      modifies this
      ensures tags == Union(old(tags), old(other.tags))
    {
      var src := other.tags;
      ghost var start := tags;
      var todo := src.Keys;
      FoldStart(start, src);
      while todo != {}
        invariant todo <= src.Keys
        invariant FoldedSoFar(tags, start, src, todo)
        decreases |todo|
      {
        var c :| c in todo;
        FoldStep(tags, start, src, todo, c);
        tags := tags[c := Get(tags, c) + src[c]];
        todo := todo - {c};
      }
      FoldedAll(tags, start, src);
    }

    /** `resolve_docker_image(image)`. */
    method ResolveDockerImage(image: string, lower: string -> string)
      modifies this
      ensures tags == DockerResolved(old(tags), ImageRule(image, lower))
    {
      ResolveImageWith(ImageMap, image, lower);
    }

    /** The body of `resolve_docker_image`, for any table. */
    method ResolveImageWith(table: seq<Rule>, image: string, lower: string -> string)
      modifies this
      ensures tags == DockerResolved(old(tags), CandidateMatch(table, Candidates(image, lower)))
    {
      var cs := Candidates(image, lower);
      var matched := false;
      var k := 0;
      while k < |cs|
        invariant 0 <= k <= |cs|
        invariant !matched ==> tags == old(tags) && CandidateMatch(table, cs) == CandidateMatch(table, cs[k..])
        invariant matched ==> tags == AddedRule(old(tags), CandidateMatch(table, cs))
      {
        if cs[k] != "" {
          var r := FindRule(table, cs[k]);
          if r.Some? {
            Add(r.value.category, [r.value.tag]);
            matched := true;
          }
        }
        if matched {
          break;
        }
        assert cs[k..][1..] == cs[k + 1..];
        k := k + 1;
      }
      Add("Containers", ["Docker"]);
    }

    /** `resolve_service(svc)`. */
    method ResolveService(svc: string, lower: string -> string)
      modifies this
      ensures tags == AddedRule(old(tags), FirstMatch(SvcMap, ServiceKey(svc, lower)))
    {
      AddFirstMatch(SvcMap, ServiceKey(svc, lower));
    }

    /** The loop of `resolve_service` over a table: add the first rule whose
        key occurs in `key`, then return. */
    method AddFirstMatch(table: seq<Rule>, key: string)
      modifies this
      ensures tags == AddedRule(old(tags), FirstMatch(table, key))
    {
      var r := FindRule(table, key);
      if r.Some? {
        Add(r.value.category, [r.value.tag]);
      }
    }

    /** `resolve_tool(name, category)`. */
    method ResolveTool(name: string, category: string, lower: string -> string)
      modifies this
      ensures tags == Added(old(tags), category, [Canonical(name, lower)])
    {
      var canonical := Canonical(name, lower);
      Add(category, [canonical]);
    }
 
    /** `format_tags()`. */
    method FormatTags() returns (text: string)
      ensures text == FormatText(tags)
    {
      text := FormatIn(CatOrder, LabelOf);
    }

    /** The body of `format_tags`, for any table of (category, label);
        `lab` is the label that table gives each category. */
    method FormatIn(order: seq<(string, string)>, lab: string -> string) returns (text: string)
      requires forall c :: lab(c) == LabelIn(order, c)
      ensures tags == map[] ==> text == ""
      ensures tags != map[] ==> text == TextOf(BlocksOf(order, MergedOver(tags, tags.Keys, lab)))
    {
      if tags == map[] {
        return "";
      }
      var merged := MergeLabels(order, lab);
      var rest, lines, flat, bs := EmitOrdered(order, merged);
      var labels;
      lines, flat, labels, bs := EmitLeftover(rest, lines, flat, bs);
      // Flat summary for quick parsing
      var distinct := SortStrings(set t | t in flat);
      lines := lines + ["---", "**All (" + NatToString(|flat|) + "):** " + TagList(distinct)];
      text := Join(lines, "\n");
    }

    /** The two loops of `format_tags` that build `merged`. */
    method MergeLabels(order: seq<(string, string)>, lab: string -> string) returns (merged: Tags)
      requires forall c :: lab(c) == LabelIn(order, c)
      ensures merged == MergedOver(tags, tags.Keys, lab)
    {
      merged := map[];
      var seen: set<string> := {};
      var i := 0;
      assert MappedSoFar(tags, order, lab, 0, seen, merged);
      while i < |order|
        invariant MappedSoFar(tags, order, lab, i, seen, merged)
      {
        var cat, heading := order[i].0, order[i].1;
        MappedStep(tags, order, lab, i, seen, merged);
        if cat in tags && cat !in seen {
          merged := merged[heading := Get(merged, heading) + tags[cat]];
          seen := seen + {cat};
        }
        i := i + 1;
      }
      // Any remaining un-mapped categories
      var todo := tags.Keys;
      ghost var visited: set<string> := {};
      RestStart(tags, order, lab, seen, merged);
      while todo != {}
        invariant RestSoFar(tags, order, lab, seen, visited, todo, merged)
        decreases |todo|
      {
        var cat :| cat in todo;
        RestStep(tags, order, lab, seen, visited, todo, merged, cat);
        if cat !in seen {
          merged := merged[Untagged(cat) := Get(merged, Untagged(cat)) + tags[cat]];
        }
        todo := todo - {cat};
        visited := visited + {cat};
      }
      RestDone(tags, order, lab, seen, visited, merged);
    }
  }
}
